/** The JavaScript string operations the CSV import and the holiday prompt use:
    `String.prototype.split` with a one-character separator and `String.prototype.trim`. */
module Text {

  /** `s.split(sep)`: the pieces between separators; `""` splits into one empty piece. */
  function Split(s: string, sep: char): (pieces: seq<string>)
    ensures |pieces| >= 1
    decreases |s|
  {
    if s == [] then [""]
    else
      var rest := Split(s[1..], sep);
      if s[0] == sep then [""] + rest
      else [[s[0]] + rest[0]] + rest[1..]
  }

  /** No piece contains the separator. */
  lemma {:induction false} SplitPiecesFree(s: string, sep: char)
    ensures forall i :: 0 <= i < |Split(s, sep)| ==> sep !in Split(s, sep)[i]
    decreases |s|
  {
    if s != [] {
      SplitPiecesFree(s[1..], sep);
      var rest := Split(s[1..], sep);
      var pieces := Split(s, sep);
      if s[0] != sep {
        assert forall i :: 1 <= i < |pieces| ==> pieces[i] == rest[i];
        assert forall c :: c in pieces[0] ==> c == s[0] || c in rest[0];
      } else {
        assert forall i :: 1 <= i < |pieces| ==> pieces[i] == rest[i - 1];
      }
    }
  }

  /** `pieces.join(sep)`. */
  function Join(pieces: seq<string>, sep: char): string
    requires |pieces| >= 1
    decreases |pieces|
  {
    if |pieces| == 1 then pieces[0] else pieces[0] + [sep] + Join(pieces[1..], sep)
  }

  /** Splitting loses nothing: joining the pieces gives the text back. */
  lemma {:induction false} JoinSplit(s: string, sep: char)
    ensures Join(Split(s, sep), sep) == s
    decreases |s|
  {
    if s != [] {
      JoinSplit(s[1..], sep);
      var rest := Split(s[1..], sep);
      if s[0] != sep {
        var pieces := Split(s, sep);
        assert pieces[0] == [s[0]] + rest[0];
        assert pieces[1..] == rest[1..];
        if |rest| > 1 {
          assert Join(rest, sep) == rest[0] + [sep] + Join(rest[1..], sep);
        }
      }
    }
  }

  /** Pieces free of the separator are what splitting their join gives. */
  lemma {:induction false} SplitJoin(pieces: seq<string>, sep: char)
    requires |pieces| >= 1
    requires forall i :: 0 <= i < |pieces| ==> sep !in pieces[i]
    ensures Split(Join(pieces, sep), sep) == pieces
    decreases |pieces|, |pieces[0]|
  {
    if |pieces| == 1 {
      SplitFree(pieces[0], sep);
    } else if pieces[0] == [] {
      SplitJoin(pieces[1..], sep);
      SplitJoinEmptyHead(pieces, sep);
    } else {
      var shorter := [pieces[0][1..]] + pieces[1..];
      ShorterFree(pieces, sep);
      SplitJoin(shorter, sep);
      SplitJoinShift(pieces, sep);
    }
  }

  /** The step of SplitJoin for an empty first piece. */
  lemma SplitJoinEmptyHead(pieces: seq<string>, sep: char)
    requires |pieces| > 1 && pieces[0] == []
    requires Split(Join(pieces[1..], sep), sep) == pieces[1..]
    ensures Split(Join(pieces, sep), sep) == pieces
  {
    assert Join(pieces, sep) == [sep] + Join(pieces[1..], sep);
    assert ([sep] + Join(pieces[1..], sep))[1..] == Join(pieces[1..], sep);
    assert pieces == [""] + pieces[1..];
  }

  /** Dropping the first character of the first piece keeps the pieces free of the separator. */
  lemma ShorterFree(pieces: seq<string>, sep: char)
    requires |pieces| > 1 && pieces[0] != []
    requires forall i :: 0 <= i < |pieces| ==> sep !in pieces[i]
    ensures forall i :: 0 <= i < |pieces| ==> sep !in ([pieces[0][1..]] + pieces[1..])[i]
  {
    var shorter := [pieces[0][1..]] + pieces[1..];
    forall i | 0 <= i < |shorter| ensures sep !in shorter[i] {
      if i == 0 {
        assert forall c :: c in pieces[0][1..] ==> c in pieces[0];
      } else {
        assert shorter[i] == pieces[i];
      }
    }
  }

  /** The step of SplitJoin for a non-empty first piece. */
  lemma SplitJoinShift(pieces: seq<string>, sep: char)
    requires |pieces| > 1 && pieces[0] != [] && sep !in pieces[0]
    requires Split(Join([pieces[0][1..]] + pieces[1..], sep), sep) == [pieces[0][1..]] + pieces[1..]
    ensures Split(Join(pieces, sep), sep) == pieces
  {
    var head := pieces[0];
    var shorter := [head[1..]] + pieces[1..];
    JoinShift(pieces, sep);
    assert head[0] in head;
    SplitCons(head[0], Join(shorter, sep), sep);
    assert [head[0]] + head[1..] == head;
    assert shorter[1..] == pieces[1..];
  }

  /** Moving the first character of the first piece out of the join. */
  lemma JoinShift(pieces: seq<string>, sep: char)
    requires |pieces| > 1 && pieces[0] != []
    ensures Join(pieces, sep) == [pieces[0][0]] + Join([pieces[0][1..]] + pieces[1..], sep)
  {
    var shorter := [pieces[0][1..]] + pieces[1..];
    assert shorter[1..] == pieces[1..];
    assert pieces[0] == [pieces[0][0]] + pieces[0][1..];
  }

  /** Splitting text that starts with a character other than the separator. */
  lemma SplitCons(c: char, t: string, sep: char)
    requires c != sep
    ensures Split([c] + t, sep) == [[c] + Split(t, sep)[0]] + Split(t, sep)[1..]
  {
    assert ([c] + t)[1..] == t;
  }

  lemma {:induction false} SplitFree(s: string, sep: char)
    requires sep !in s
    ensures Split(s, sep) == [s]
    decreases |s|
  {
    if s != [] {
      assert forall c :: c in s[1..] ==> c in s;
      SplitFree(s[1..], sep);
      assert [s[0]] + s[1..] == s;
    }
  }

  /** Number of occurrences of `c` in `s`. */
  function Occurrences(s: string, c: char): nat {
    multiset(s)[c]
  }

  /** There is one piece more than there are separators. */
  lemma {:induction false} SplitCount(s: string, sep: char)
    ensures |Split(s, sep)| == Occurrences(s, sep) + 1
    decreases |s|
  {
    if s != [] {
      SplitCount(s[1..], sep);
      assert s == [s[0]] + s[1..];
      assert multiset(s) == multiset{s[0]} + multiset(s[1..]);
    }
  }

  /** The characters `trim` removes: WhiteSpace and LineTerminator of the ECMAScript grammar
      (section 12.2 and 12.3 of ECMA-262), with the space separators of Unicode category Zs. */
  predicate IsSpace(c: char) {
    var n := c as int;
    n == 0x09 || n == 0x0A || n == 0x0B || n == 0x0C || n == 0x0D || n == 0x20 || n == 0xA0
    || n == 0x1680 || (0x2000 <= n <= 0x200A) || n == 0x2028 || n == 0x2029 || n == 0x202F
    || n == 0x205F || n == 0x3000 || n == 0xFEFF
  }

  /** The ASCII white space is white space; letters and digits are not. */
  lemma AsciiSpace(c: char)
    ensures c == ' ' || c == '\t' || c == '\n' || c == '\r' ==> IsSpace(c)
    ensures 'a' <= c <= 'z' || 'A' <= c <= 'Z' || '0' <= c <= '9' ==> !IsSpace(c)
  {
  }

  /** `s.trimStart()`. */
  function TrimStart(s: string): (r: string)
    ensures |r| <= |s| && r == s[|s| - |r|..]
    ensures forall i :: 0 <= i < |s| - |r| ==> IsSpace(s[i])
    ensures r != [] ==> !IsSpace(r[0])
    decreases |s|
  {
    if s != [] && IsSpace(s[0]) then TrimStart(s[1..]) else s
  }

  /** `s.trimEnd()`. */
  function TrimEnd(s: string): (r: string)
    ensures |r| <= |s| && r == s[..|r|]
    ensures forall i :: |r| <= i < |s| ==> IsSpace(s[i])
    ensures r != [] ==> !IsSpace(r[|r| - 1])
    decreases |s|
  {
    if s != [] && IsSpace(s[|s| - 1]) then TrimEnd(s[..|s| - 1]) else s
  }

  /** `s.trim()`: the text between the leading and the trailing white space. */
  function Trim(s: string): (r: string)
    ensures |r| <= |s|
    ensures r != [] ==> !IsSpace(r[0]) && !IsSpace(r[|r| - 1])
    ensures r == [] <==> forall i :: 0 <= i < |s| ==> IsSpace(s[i])
    ensures exists i, j :: 0 <= i <= j <= |s| && r == s[i..j] && OuterSpace(s, i, j)
  {
    var t := TrimStart(s);
    var r := TrimEnd(t);
    TrimParts(s, t, r);
    r
  }

  /** Everything of `s` before position `i` and from position `j` on is white space. */
  predicate OuterSpace(s: string, i: int, j: int)
    requires 0 <= i <= j <= |s|
  {
    (forall k :: 0 <= k < i ==> IsSpace(s[k])) && (forall k :: j <= k < |s| ==> IsSpace(s[k]))
  }

  lemma TrimParts(s: string, t: string, r: string)
    requires t == TrimStart(s) && r == TrimEnd(t)
    ensures |r| <= |s|
    ensures r != [] ==> !IsSpace(r[0]) && !IsSpace(r[|r| - 1])
    ensures r == [] <==> forall i :: 0 <= i < |s| ==> IsSpace(s[i])
    ensures exists i, j :: 0 <= i <= j <= |s| && r == s[i..j] && OuterSpace(s, i, j)
  {
    assert r == [] ==> t == [];
    assert r != [] ==> s[|s| - |t|] == t[0] == r[0];
    TrimSlice(s, t, r);
  }

  /** The trimmed text is the slice of `s` from the end of the leading white space. */
  lemma TrimSlice(s: string, t: string, r: string)
    requires t == TrimStart(s) && r == TrimEnd(t)
    ensures var i := |s| - |t|; i + |r| <= |s| && r == s[i..i + |r|] && OuterSpace(s, i, i + |r|)
  {
    PrefixOfSuffix(s, t, r);
  }

  /** A prefix `r` of a suffix `t` of `s`, with white space before `t` and after `r` in `t`,
      is the slice of `s` between outer white space. */
  lemma PrefixOfSuffix(s: string, t: string, r: string)
    requires |t| <= |s| && t == s[|s| - |t|..] && |r| <= |t| && r == t[..|r|]
    requires forall k :: 0 <= k < |s| - |t| ==> IsSpace(s[k])
    requires forall k :: |r| <= k < |t| ==> IsSpace(t[k])
    ensures var i := |s| - |t|; r == s[i..i + |r|] && OuterSpace(s, i, i + |r|)
  {
    var i := |s| - |t|;
    forall k | i + |r| <= k < |s| ensures IsSpace(s[k]) {
      assert s[k] == t[k - i];
    }
  }

  /** Text without outer white space is its own trim; in particular trimming twice is
      trimming once. */
  lemma TrimUntrimmed(s: string)
    requires s != [] ==> !IsSpace(s[0]) && !IsSpace(s[|s| - 1])
    ensures Trim(s) == s
  {
  }

  lemma TrimIdempotent(s: string)
    ensures Trim(Trim(s)) == Trim(s)
  {
    TrimUntrimmed(Trim(s));
  }
}
