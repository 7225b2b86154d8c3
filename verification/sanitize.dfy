/** The body clean-up of the export loop (main.py:111-112):
    `html.unescape(text.replace("<br>", ""))`. */
module Sanitize {
  import opened Text

  const Br := "<br>"

  /** `s.replace("<br>", "")`: one left-to-right pass removing every
      non-overlapping occurrence; Python's `replace(old, new)` is
      `new.join(s.split(old))`. */
  function RemoveBr(s: string): string {
    Join(Split(s, Br), "")
  }

  /** The text is cut at every "<br>": the pieces rejoined with "<br>"
      give it back, none of them holds a "<br>", and the result is the
      pieces run together. */
  lemma RemoveBrCuts(s: string)
    ensures var pieces := Split(s, Br);
            && Join(pieces, Br) == s
            && (forall k | 0 <= k < |pieces| :: !Contains(pieces[k], Br))
            && RemoveBr(s) == Join(pieces, "")
  {
    SplitJoin(s, Br);
    SplitPiecesNoSep(s, Br);
  }

  /** Each removed occurrence shortens the text by four characters. */
  lemma RemoveBrLength(s: string)
    ensures |RemoveBr(s)| == |s| - 4 * (|Split(s, Br)| - 1)
  {
    SplitJoin(s, Br);
    JoinLength(Split(s, Br), Br);
  }

  /** The removal changes the text exactly when it contains "<br>". */
  lemma RemoveBrUnchangedIff(s: string)
    ensures RemoveBr(s) == s <==> !Contains(s, Br)
  {
    if Contains(s, Br) {
      SplitWithSep(s, Br);
      RemoveBrLength(s);
    } else {
      SplitWithoutSep(s, Br);
    }
  }

  /** The pass does not rescan its output: removing the inner tag of
      "<b<br>r>" leaves a new "<br>" behind. */
  lemma RemoveBrSinglePass(s: string)
    requires s == "<b<br>r>"
    ensures RemoveBr(s) == "<br>"
  {
    assert s == "<b" + Br + "r>";
    assert !StartsWith(s[0..], Br) by { assert s[0..][2] == '<' != Br[2]; }
    assert !StartsWith(s[1..], Br) by { assert s[1..][0] == 'b'; }
    SplitAround("<b", "r>");
    SplitWithoutSep("r>", Br);
    JoinPair("<b", "r>");
  }

  lemma JoinPair(a: string, b: string)
    ensures Join([a, b], "") == a + b
  {
    assert [a, b][1..] == [b];
  }

  /** A text holding a pattern holds the pattern's first character. */
  lemma ContainsHead(s: string, p: string)
    requires p != [] && Contains(s, p)
    ensures p[0] in s
  {
    var i: nat :| i + |p| <= |s| && OccursAt(s, p, i);
    assert s[i] == s[i..i + |p|][0];
  }

  /** Splitting a text whose first "<br>" follows `before`. */
  lemma {:induction false} SplitAround(before: string, after: string)
    requires forall i | 0 <= i < |before| :: !StartsWith((before + Br + after)[i..], Br)
    ensures Split(before + Br + after, Br) == [before] + Split(after, Br)
    decreases |before|
  {
    var s := before + Br + after;
    if before == [] {
      assert s[4..] == after;
    } else {
      assert !StartsWith(s, Br) by { assert s[0..] == s; }
      var s' := before[1..] + Br + after;
      assert s' == s[1..];
      forall i | 0 <= i < |before[1..]| ensures !StartsWith(s'[i..], Br) {
        assert s'[i..] == s[i + 1..];
      }
      SplitAround(before[1..], after);
      assert [before[0]] + before[1..] == before;
    }
  }

  /** With no '<' in `before`, its end is where the first "<br>" can start. */
  lemma FirstBrAfter(before: string, after: string)
    requires '<' !in before
    ensures Split(before + Br + after, Br) == [before] + Split(after, Br)
  {
    var s := before + Br + after;
    forall i | 0 <= i < |before| ensures !StartsWith(s[i..], Br) {
      assert s[i..][0] == before[i];
    }
    SplitAround(before, after);
  }

  /** `html.unescape` restricted to the entities `&lt;`, `&gt;` and `&amp;`:
      entities are decoded left to right and decoded text is not rescanned. */
  function Unescape(s: string): (r: string)
    ensures |r| <= |s|
  {
    if s == [] then []
    else if s[0] != '&' then [s[0]] + Unescape(s[1..])
    else if StartsWith(s, "&lt;") then "<" + Unescape(s[4..])
    else if StartsWith(s, "&gt;") then ">" + Unescape(s[4..])
    else if StartsWith(s, "&amp;") then "&" + Unescape(s[5..])
    else [s[0]] + Unescape(s[1..])
  }

  /** A character other than '&' is copied as it is. */
  lemma UnescapeCons(c: char, s: string)
    requires c != '&'
    ensures Unescape([c] + s) == [c] + Unescape(s)
  {
    var t := [c] + s;
    assert t[0] == c && t[1..] == s;
  }

  /** Text without an '&' passes through untouched, wherever it stands. */
  lemma {:induction false} UnescapePlain(p: string, rest: string)
    requires '&' !in p
    ensures Unescape(p + rest) == p + Unescape(rest)
    decreases |p|
  {
    if p != [] {
      assert p + rest == [p[0]] + (p[1..] + rest);
      UnescapeCons(p[0], p[1..] + rest);
      UnescapePlain(p[1..], rest);
      assert [p[0]] + (p[1..] + Unescape(rest)) == p + Unescape(rest);
    } else {
      assert p + rest == rest;
    }
  }

  /** Text without an '&' is left as it is. */
  lemma UnescapeNoEntity(s: string)
    requires '&' !in s
    ensures Unescape(s) == s
  {
    UnescapePlain(s, []);
    assert s + [] == s;
  }

  lemma UnescapeLt(rest: string)
    ensures Unescape("&lt;" + rest) == "<" + Unescape(rest)
  {
    var t := "&lt;" + rest;
    assert t[..4] == "&lt;" && t[4..] == rest;
  }

  lemma UnescapeGt(rest: string)
    ensures Unescape("&gt;" + rest) == ">" + Unescape(rest)
  {
    var t := "&gt;" + rest;
    assert t[1] == 'g' && t[..4] == "&gt;" && t[4..] == rest;
  }

  lemma UnescapeAmp(rest: string)
    ensures Unescape("&amp;" + rest) == "&" + Unescape(rest)
  {
    var t := "&amp;" + rest;
    assert t[..5] == "&amp;" && t[5..] == rest;
    assert t[..4] != "&lt;" && t[..4] != "&gt;" by {
      assert t[..4][1] == 'a';
    }
  }

  /** `html.escape(s, quote=False)`, the inverse of `Unescape`. */
  function Escape(s: string): (r: string)
    ensures '<' !in r && '>' !in r
  {
    if s == [] then []
    else
      (match s[0]
       case '&' => "&amp;"
       case '<' => "&lt;"
       case '>' => "&gt;"
       case c => [c])
      + Escape(s[1..])
  }

  /** Unescaping undoes escaping. */
  lemma {:induction false} UnescapeEscape(s: string)
    ensures Unescape(Escape(s)) == s
  {
    if s != [] {
      UnescapeEscape(s[1..]);
      var rest := Escape(s[1..]);
      if s[0] == '&' {
        UnescapeAmp(rest);
      } else if s[0] == '<' {
        UnescapeLt(rest);
      } else if s[0] == '>' {
        UnescapeGt(rest);
      } else {
        UnescapePlain([s[0]], rest);
      }
      assert s == [s[0]] + s[1..];
    }
  }

  /** The body an export writes: tags removed first, entities decoded second. */
  function Sanitize(body: string): string {
    Unescape(RemoveBr(body))
  }

  /** A body with neither "<br>" nor an '&' is written unchanged. */
  lemma SanitizePlainText(body: string)
    requires !Contains(body, Br) && '&' !in body
    ensures Sanitize(body) == body
  {
    RemoveBrUnchangedIff(body);
    UnescapeNoEntity(body);
  }

  /** Because "<br>" is removed before entities are decoded, an escaped
      body comes back exactly, any "<br>" it encodes included. */
  lemma SanitizeEscaped(s: string)
    ensures Sanitize(Escape(s)) == s
  {
    var e := Escape(s);
    if Contains(e, Br) {
      ContainsHead(e, Br);
    }
    RemoveBrUnchangedIff(e);
    UnescapeEscape(s);
  }

  /** The worked example: the escaped tag survives as a literal "<br>", the
      literal tag is removed and "&amp;" is decoded. */
  lemma SanitizeExample()
    ensures Sanitize("Hello" + "&lt;" + "br" + "&gt;" + "<br>" + "World " + "&amp;" + " friends")
         == "Hello" + "<" + "br" + ">" + "World " + "&" + " friends"
  {
    SanitizeShape("Hello", "br", "World ", " friends");
  }

  /** Sanitizing a body of the shape a&lt;b&gt;<br>c&amp;d. */
  lemma SanitizeShape(a: string, b: string, c: string, d: string)
    requires '&' !in a && '&' !in b && '&' !in c && '&' !in d
    requires '<' !in a && '<' !in b && '<' !in c && '<' !in d
    ensures Sanitize(a + "&lt;" + b + "&gt;" + Br + c + "&amp;" + d) == a + "<" + b + ">" + c + "&" + d
  {
    var before := a + "&lt;" + b + "&gt;";
    var after := c + "&amp;" + d;
    assert '<' !in before && '<' !in after;
    calc {
      Sanitize(a + "&lt;" + b + "&gt;" + Br + c + "&amp;" + d);
      { assert a + "&lt;" + b + "&gt;" + Br + c + "&amp;" + d == before + Br + after; }
      Unescape(RemoveBr(before + Br + after));
      { RemoveOneBr(before, after); }
      Unescape(before + after);
      { assert before + after == a + ("&lt;" + (b + ("&gt;" + (c + ("&amp;" + d))))); }
      Unescape(a + ("&lt;" + (b + ("&gt;" + (c + ("&amp;" + d))))));
      { UnescapeEntities(a, b, c, d); }
      a + ("<" + (b + (">" + (c + ("&" + d)))));
    }
  }

  /** "<br>" between two texts without a '<' is cut out. */
  lemma RemoveOneBr(before: string, after: string)
    requires '<' !in before && '<' !in after
    ensures RemoveBr(before + Br + after) == before + after
  {
    FirstBrAfter(before, after);
    if Contains(after, Br) {
      ContainsHead(after, Br);
    }
    SplitWithoutSep(after, Br);
    assert Split(before + Br + after, Br) == [before, after];
    JoinPair(before, after);
  }

  /** The three entities decoded between plain runs of text. */
  lemma UnescapeEntities(a: string, b: string, c: string, d: string)
    requires '&' !in a && '&' !in b && '&' !in c && '&' !in d
    ensures Unescape(a + ("&lt;" + (b + ("&gt;" + (c + ("&amp;" + d)))))) ==
            a + ("<" + (b + (">" + (c + ("&" + d)))))
  {
    UnescapePlain(d, "");
    assert d + "" == d;
    UnescapeAmp(d);
    UnescapePlain(c, "&amp;" + d);
    UnescapeGt(c + ("&amp;" + d));
    UnescapePlain(b, "&gt;" + (c + ("&amp;" + d)));
    UnescapeLt(b + ("&gt;" + (c + ("&amp;" + d))));
    UnescapePlain(a, "&lt;" + (b + ("&gt;" + (c + ("&amp;" + d)))));
  }
}
