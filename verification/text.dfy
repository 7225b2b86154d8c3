/** The few Python `str` operations the exporter relies on, with their
    semantics written out: `split` with a non-empty separator, `sep.join`,
    `isspace` and `strip()`. */
module Text {

  predicate StartsWith(s: string, p: string) {
    |p| <= |s| && s[..|p|] == p
  }

  predicate OccursAt(s: string, p: string, i: nat)
    requires i + |p| <= |s|
  {
    s[i..i + |p|] == p
  }

  /** Python `p in s` for a substring `p`. */
  predicate Contains(s: string, p: string) {
    exists i: nat | i + |p| <= |s| :: OccursAt(s, p, i)
  }

  /** Python `s.split(sep)`: a single left-to-right scan cutting at every
      non-overlapping occurrence of `sep`; there is always at least one piece. */
  function Split(s: string, sep: string): (r: seq<string>)
    requires sep != []
    ensures |r| >= 1
    decreases |s|
  {
    if |s| < |sep| then [s]
    else if StartsWith(s, sep) then [""] + Split(s[|sep|..], sep)
    else
      var rest := Split(s[1..], sep);
      [[s[0]] + rest[0]] + rest[1..]
  }

  /** Python `sep.join(pieces)`. */
  function Join(pieces: seq<string>, sep: string): string {
    if pieces == [] then ""
    else if |pieces| == 1 then pieces[0]
    else pieces[0] + sep + Join(pieces[1..], sep)
  }

  /** `Join` of a piece in front of a non-empty list. */
  lemma JoinCons(a: string, pieces: seq<string>, sep: string)
    requires pieces != []
    ensures Join([a] + pieces, sep) == a + sep + Join(pieces, sep)
  {
    assert ([a] + pieces)[1..] == pieces;
  }

  /** Putting a character in front of the first piece puts it in front of the join. */
  lemma JoinExtendHead(c: char, pieces: seq<string>, sep: string)
    requires pieces != []
    ensures Join([[c] + pieces[0]] + pieces[1..], sep) == [c] + Join(pieces, sep)
  {
    var head := [c] + pieces[0];
    if |pieces| == 1 {
      assert [head] + pieces[1..] == [head];
    } else {
      JoinCons(head, pieces[1..], sep);
      JoinCons(pieces[0], pieces[1..], sep);
      assert [pieces[0]] + pieces[1..] == pieces;
    }
  }

  /** Splitting and joining with the same separator gives the string back. */
  lemma {:induction false} SplitJoin(s: string, sep: string)
    requires sep != []
    ensures Join(Split(s, sep), sep) == s
    decreases |s|
  {
    if |s| < |sep| {
    } else if StartsWith(s, sep) {
      var tail := s[|sep|..];
      assert Split(s, sep) == [""] + Split(tail, sep);
      SplitJoin(tail, sep);
      JoinCons("", Split(tail, sep), sep);
      assert s == sep + tail;
    } else {
      var rest := Split(s[1..], sep);
      assert Split(s, sep) == [[s[0]] + rest[0]] + rest[1..];
      SplitJoin(s[1..], sep);
      JoinExtendHead(s[0], rest, sep);
      assert s == [s[0]] + s[1..];
    }
  }

  /** A string without the separator is a single piece. */
  lemma {:induction false} SplitWithoutSep(s: string, sep: string)
    requires sep != [] && !Contains(s, sep)
    ensures Split(s, sep) == [s]
    decreases |s|
  {
    if |s| < |sep| {
    } else {
      if StartsWith(s, sep) {
        assert OccursAt(s, sep, 0);
        assert false;
      }
      if Contains(s[1..], sep) {
        var i: nat :| i + |sep| <= |s[1..]| && OccursAt(s[1..], sep, i);
        assert s[i + 1..i + 1 + |sep|] == s[1..][i..i + |sep|];
        assert OccursAt(s, sep, i + 1);
      }
      SplitWithoutSep(s[1..], sep);
      assert [s[0]] + s[1..] == s;
    }
  }

  /** A string holding the separator splits into at least two pieces. */
  lemma {:induction false} SplitWithSep(s: string, sep: string)
    requires sep != [] && Contains(s, sep)
    ensures |Split(s, sep)| >= 2
    decreases |s|
  {
    var i: nat :| i + |sep| <= |s| && OccursAt(s, sep, i);
    if !StartsWith(s, sep) {
      assert i != 0;
      assert s[1..][i - 1..i - 1 + |sep|] == s[i..i + |sep|];
      assert OccursAt(s[1..], sep, i - 1);
      SplitWithSep(s[1..], sep);
    }
  }

  /** Joining with the empty string drops exactly one separator length per cut. */
  lemma {:induction false} JoinLength(pieces: seq<string>, sep: string)
    requires pieces != []
    ensures |Join(pieces, sep)| == |Join(pieces, "")| + (|pieces| - 1) * |sep|
  {
    if |pieces| > 1 {
      JoinLength(pieces[1..], sep);
    }
  }

  /** The first piece of a split is a prefix of the string. */
  lemma {:induction false} SplitHeadPrefix(s: string, sep: string)
    requires sep != []
    ensures StartsWith(s, Split(s, sep)[0])
    decreases |s|
  {
    if |s| >= |sep| && !StartsWith(s, sep) {
      var rest := Split(s[1..], sep);
      SplitHeadPrefix(s[1..], sep);
      assert Split(s, sep)[0] == [s[0]] + rest[0];
      assert s[..1 + |rest[0]|] == [s[0]] + s[1..][..|rest[0]|];
    }
  }

  /** A piece that does not hold the separator stays free of it when a
      character the scan did not cut at is put in front. */
  lemma ExtendHeadNoSep(s: string, sep: string, h: string)
    requires sep != [] && |s| >= 1 && !StartsWith(s, sep)
    requires StartsWith(s, h) && |h| >= 1 && !Contains(h[1..], sep)
    ensures !Contains(h, sep)
  {
    if Contains(h, sep) {
      var i: nat :| i + |sep| <= |h| && OccursAt(h, sep, i);
      if i > 0 {
        assert h[1..][i - 1..i - 1 + |sep|] == h[i..i + |sep|];
        assert OccursAt(h[1..], sep, i - 1);
      }
    }
  }

  /** `split` cuts at every occurrence it meets: no piece holds the separator. */
  lemma {:induction false} SplitPiecesNoSep(s: string, sep: string)
    requires sep != []
    ensures forall k | 0 <= k < |Split(s, sep)| :: !Contains(Split(s, sep)[k], sep)
    decreases |s|
  {
    var r := Split(s, sep);
    if |s| < |sep| {
      assert !Contains(s, sep);
    } else if StartsWith(s, sep) {
      SplitPiecesNoSep(s[|sep|..], sep);
      assert !Contains("", sep);
      assert forall k | 1 <= k < |r| :: r[k] == Split(s[|sep|..], sep)[k - 1];
    } else {
      var rest := Split(s[1..], sep);
      SplitPiecesNoSep(s[1..], sep);
      SplitHeadPrefix(s, sep);
      assert r[0] == [s[0]] + rest[0] && r[0][1..] == rest[0];
      ExtendHeadNoSep(s, sep, r[0]);
      assert forall k | 1 <= k < |r| :: r[k] == rest[k];
    }
  }

  /** Splitting on one character leaves that character in no piece. */
  lemma {:induction false} SplitOnCharPieces(s: string, c: char)
    ensures forall k | 0 <= k < |Split(s, [c])| :: c !in Split(s, [c])[k]
    decreases |s|
  {
    if |s| >= 1 {
      SplitOnCharPieces(s[1..], c);
    }
  }

  /** A one-character separator occurs in `s` exactly when `s` holds that character. */
  lemma ContainsChar(s: string, c: char)
    ensures Contains(s, [c]) <==> c in s
  {
    if c in s {
      var i :| 0 <= i < |s| && s[i] == c;
      assert OccursAt(s, [c], i);
    }
    if Contains(s, [c]) {
      var i: nat :| i + 1 <= |s| && OccursAt(s, [c], i);
      assert s[i] == s[i..i + 1][0];
    }
  }

  /** Python `str.isspace()` for one character: the Unicode whitespace set. */
  predicate IsSpace(c: char) {
    c in {' ', '\t', '\n', '\r', '\U{B}', '\U{C}', '\U{1C}', '\U{1D}', '\U{1E}', '\U{1F}',
          '\U{85}', '\U{A0}', '\U{1680}', '\U{2000}', '\U{2001}', '\U{2002}', '\U{2003}',
          '\U{2004}', '\U{2005}', '\U{2006}', '\U{2007}', '\U{2008}', '\U{2009}', '\U{200A}',
          '\U{2028}', '\U{2029}', '\U{202F}', '\U{205F}', '\U{3000}'}
  }

  /** Python `s.lstrip()`: drops leading whitespace only. */
  function LStrip(s: string): (r: string)
    ensures |r| <= |s| && r == s[|s| - |r|..]
    ensures forall i | 0 <= i < |s| - |r| :: IsSpace(s[i])
    ensures r == [] || !IsSpace(r[0])
  {
    if s != [] && IsSpace(s[0]) then LStrip(s[1..]) else s
  }

  /** Python `s.rstrip()`: drops trailing whitespace only. */
  function RStrip(s: string): (r: string)
    ensures |r| <= |s| && r == s[..|r|]
    ensures forall i | |r| <= i < |s| :: IsSpace(s[i])
    ensures r == [] || !IsSpace(r[|r| - 1])
  {
    if s != [] && IsSpace(s[|s| - 1]) then RStrip(s[..|s| - 1]) else s
  }

  /** Python `s.strip()`. */
  function Strip(s: string): string {
    RStrip(LStrip(s))
  }

  /** `s.strip() == ""` holds exactly when every character of `s` is whitespace. */
  lemma StripEmptyIff(s: string)
    ensures Strip(s) == "" <==> forall i | 0 <= i < |s| :: IsSpace(s[i])
  {
    var l := LStrip(s);
    if Strip(s) == "" {
      assert l == [];
    }
  }
}
