/** `prepareCookies` (main.py:23-30): turns the cookie string copied from a
    browser, `name=value` pairs separated by "; ", into a cookie dictionary. */
module Cookies {
  import opened Errors
  import opened Text

  /** The pieces `cookieString.split("; ")` iterates over: the string is
      cut at every "; ", so the pieces rejoined give it back and none of
      them still holds the separator. */
  function Pieces(cookieString: string): (r: seq<string>)
    ensures r != [] && Join(r, "; ") == cookieString
    ensures forall k | 0 <= k < |r| :: !Contains(r[k], "; ")
  {
    SplitJoin(cookieString, "; ");
    SplitPiecesNoSep(cookieString, "; ");
    Split(cookieString, "; ")
  }

  /** `y[0]`: the text of a piece before its first '='. */
  function Key(piece: string): string {
    Split(piece, "=")[0]
  }

  /** `y[1]`: the text between the first and the second '=' of a piece. */
  function Value(piece: string): string
    requires '=' in piece
  {
    PieceHasTwoParts(piece);
    Split(piece, "=")[1]
  }

  lemma PieceHasTwoParts(piece: string)
    ensures |Split(piece, "=")| >= 2 <==> '=' in piece
  {
    ContainsChar(piece, '=');
    if '=' in piece {
      SplitWithSep(piece, "=");
    } else {
      SplitWithoutSep(piece, "=");
    }
  }

  /** A piece with an '=' is its key, an '=', its value and then either
      nothing or a further '=' with whatever follows (which is dropped);
      neither key nor value holds an '='. */
  lemma PieceShape(piece: string)
    requires '=' in piece
    ensures '=' !in Key(piece) && '=' !in Value(piece)
    ensures StartsWith(piece, Key(piece) + "=" + Value(piece))
    ensures var n := |Key(piece)| + 1 + |Value(piece)|;
            n == |piece| || piece[n] == '='
  {
    var y := Split(piece, "=");
    PieceHasTwoParts(piece);
    SplitOnCharPieces(piece, '=');
    assert '=' !in y[0] && '=' !in y[1];
    SplitJoin(piece, "=");
    JoinCons(y[0], y[1..], "=");
    assert [y[0]] + y[1..] == y;
    if |y| > 2 {
      JoinCons(y[1], y[2..], "=");
      assert [y[1]] + y[2..] == y[1..];
      assert piece == y[0] + "=" + y[1] + "=" + Join(y[2..], "=");
    } else {
      assert piece == y[0] + "=" + y[1];
    }
  }

  /** The dictionary `prepareCookies` builds from `pieces`, filling it in
      order, or the IndexError raised at the first piece without an '='. */
  function CookieJar(pieces: seq<string>): Result<map<string, string>> {
    if pieces == [] then Ok(map[])
    else
      var prev := CookieJar(pieces[..|pieces| - 1]);
      var piece := pieces[|pieces| - 1];
      if prev.Err? then prev
      else if '=' !in piece then Err(CookieWithoutValue(piece))
      else Ok(prev.value[Key(piece) := Value(piece)])
  }

  /** Once a prefix of the pieces has failed, the whole list fails the same way. */
  lemma {:induction false} CookieJarErrPersists(pieces: seq<string>, k: nat)
    requires k <= |pieces| && CookieJar(pieces[..k]).Err?
    ensures CookieJar(pieces) == CookieJar(pieces[..k])
    decreases |pieces| - k
  {
    if k < |pieces| {
      var p := pieces[..k + 1];
      assert p[..k] == pieces[..k];
      CookieJarErrPersists(pieces, k + 1);
    } else {
      assert pieces[..k] == pieces;
    }
  }

  /** The parse succeeds exactly when every piece has an '='. */
  lemma {:induction false} CookieJarOkIff(pieces: seq<string>)
    ensures CookieJar(pieces).Ok? <==> forall i | 0 <= i < |pieces| :: '=' in pieces[i]
  {
    if pieces != [] {
      var init := pieces[..|pieces| - 1];
      CookieJarOkIff(init);
      assert forall j | 0 <= j < |init| :: pieces[j] == init[j];
    }
  }

  /** A failed parse names the first piece without an '='. */
  lemma {:induction false} CookieJarFails(pieces: seq<string>)
    ensures CookieJar(pieces).Err? ==>
              exists i | 0 <= i < |pieces| ::
                '=' !in pieces[i] && (forall j | 0 <= j < i :: '=' in pieces[j]) &&
                CookieJar(pieces).failure == CookieWithoutValue(pieces[i])
  {
    if pieces != [] {
      var init := pieces[..|pieces| - 1];
      if CookieJar(init).Err? {
        CookieJarFails(init);
        var i :| 0 <= i < |init| && '=' !in init[i] && (forall j | 0 <= j < i :: '=' in init[j]) &&
                 CookieJar(init).failure == CookieWithoutValue(init[i]);
        assert CookieJar(pieces) == CookieJar(init);
        assert forall j | 0 <= j <= i :: pieces[j] == init[j];
      } else if CookieJar(pieces).Err? {
        CookieJarOkIff(init);
        var i := |init|;
        assert '=' !in pieces[i] && CookieJar(pieces).failure == CookieWithoutValue(pieces[i]);
        assert forall j | 0 <= j < i :: pieces[j] == init[j];
      }
    }
  }

  /** A cookie name is in the dictionary exactly when some piece carries it. */
  lemma {:induction false} CookieJarKeys(pieces: seq<string>)
    requires CookieJar(pieces).Ok?
    ensures forall k :: k in CookieJar(pieces).value <==>
              exists i | 0 <= i < |pieces| :: Key(pieces[i]) == k
  {
    if pieces != [] {
      var init := pieces[..|pieces| - 1];
      CookieJarKeys(init);
      forall k ensures k in CookieJar(pieces).value <==>
                       exists i | 0 <= i < |pieces| :: Key(pieces[i]) == k {
        if exists i | 0 <= i < |pieces| :: Key(pieces[i]) == k {
          var i :| 0 <= i < |pieces| && Key(pieces[i]) == k;
          if i < |init| {
            assert Key(init[i]) == k;
          }
        }
        if k in CookieJar(init).value {
          var i :| 0 <= i < |init| && Key(init[i]) == k;
          assert Key(pieces[i]) == k;
        }
      }
    }
  }

  /** A later piece with the same name overwrites an earlier one: the value
      kept is that of the last piece carrying the name. */
  lemma {:induction false} CookieJarLastWins(pieces: seq<string>, i: nat)
    requires CookieJar(pieces).Ok?
    requires i < |pieces| && forall j | i < j < |pieces| :: Key(pieces[j]) != Key(pieces[i])
    ensures '=' in pieces[i]
    ensures Key(pieces[i]) in CookieJar(pieces).value
    ensures CookieJar(pieces).value[Key(pieces[i])] == Value(pieces[i])
  {
    CookieJarOkIff(pieces);
    if i < |pieces| - 1 {
      var init := pieces[..|pieces| - 1];
      assert init[i] == pieces[i];
      CookieJarLastWins(init, i);
    }
  }

  /** `prepareCookies(cookieString)`: the dictionary, or the IndexError. */
  method PrepareCookies(cookieString: string) returns (r: Result<map<string, string>>)
    ensures r == CookieJar(Pieces(cookieString))
  {
    var pieces := Pieces(cookieString);
    var cookies: map<string, string> := map[];
    var i := 0;
    while i < |pieces|
      invariant i <= |pieces|
      invariant CookieJar(pieces[..i]) == Ok(cookies)
    {
      var piece := pieces[i];
      var y := Split(piece, "=");
      assert pieces[..i + 1][..i] == pieces[..i];
      PieceHasTwoParts(piece);
      if |y| < 2 {
        CookieJarErrPersists(pieces, i + 1);
        return Err(CookieWithoutValue(piece));
      }
      cookies := cookies[y[0] := y[1]];
      i := i + 1;
    }
    assert pieces[..i] == pieces;
    return Ok(cookies);
  }
}
