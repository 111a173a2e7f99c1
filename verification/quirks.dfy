/** Three behaviours of the preview that follow from keying each
    substitution by the trimmed name alone (script.js:70, 80), shown on
    prompts of the shapes `${a} ${ab}`, `${n:x} ${n:y}` and `${ x }`. */
module Quirks {
  import opened Options
  import opened Strings
  import opened Extractor
  import opened Substitution
  import opened Templates
  import opened Renderer

  /** A name or default that both regular expressions read literally and
      that trimming leaves alone. */
  predicate Plain(s: string) {
    && |s| > 0 && !IsJsSpace(s[0]) && !IsJsSpace(s[|s| - 1])
    && LiteralName(s) && ':' !in s
  }

  /** Reading a preview off the template theorem. */
  lemma PreviewByResolution(ps: seq<Piece>, text: string, vars: seq<Variable>, out: string)
    requires Clean(ps) && Render(ps) == text
    requires Dedup(HoleVariables(ps)) == vars && Substitutable(vars)
    requires Render(ResolveAll(ps, UnboundSubs(vars))) == out
    ensures Extract(text) == vars && Preview(text, None) == out
  {
    ExtractRender(ps);
    PreviewUnboundTemplate(ps);
  }

  lemma PiecesCons(q: Piece, rest: seq<Piece>)
    ensures Render([q] + rest) == PieceText(q) + Render(rest)
    ensures Holes([q] + rest) == (if q.Hole? then [q.inner] else []) + Holes(rest)
  {
    assert ([q] + rest)[0] == q && ([q] + rest)[1..] == rest;
  }

  lemma ConcatThree(a: string, b: string, c: string)
    ensures a + (b + (c + [])) == a + b + c
  {
  }

  lemma TwoHolesRender(x: string, l: string, y: string)
    ensures Render([Hole(x), Lit(l), Hole(y)]) == ("${" + x + "}") + l + ("${" + y + "}")
    ensures Holes([Hole(x), Lit(l), Hole(y)]) == [x, y]
  {
    var last: seq<Piece> := [Hole(y)];
    var mid := [Lit(l)] + last;
    PiecesCons(Hole(y), []);
    assert [Hole(y)] + [] == last;
    PiecesCons(Lit(l), last);
    PiecesCons(Hole(x), mid);
    assert [Hole(x)] + mid == [Hole(x), Lit(l), Hole(y)];
    ConcatThree("${" + x + "}", l, "${" + y + "}");
  }

  /** Two holes around a literal. */
  lemma TwoHoles(x: string, l: string, y: string)
    ensures Render([Hole(x), Lit(l), Hole(y)]) == ("${" + x + "}") + l + ("${" + y + "}")
    ensures HoleVariables([Hole(x), Lit(l), Hole(y)]) == [ToVariable(SplitInner(x)), ToVariable(SplitInner(y))]
  {
    TwoHolesRender(x, l, y);
    TwoHoleVariables([Hole(x), Lit(l), Hole(y)], x, y);
  }

  lemma TwoHoleVariables(ps: seq<Piece>, x: string, y: string)
    requires Holes(ps) == [x, y]
    ensures HoleVariables(ps) == [ToVariable(SplitInner(x)), ToVariable(SplitInner(y))]
  {
    var hs := Holes(ps);
    assert HoleVariables(ps) == seq(|hs|, i requires 0 <= i < |hs| => ToVariable(SplitInner(hs[i])));
    TwoInners(hs, x, y);
  }

  lemma TwoInners(hs: seq<string>, x: string, y: string)
    requires hs == [x, y]
    ensures seq(|hs|, i requires 0 <= i < |hs| => ToVariable(SplitInner(hs[i])))
            == [ToVariable(SplitInner(x)), ToVariable(SplitInner(y))]
  {
    var vs := seq(|hs|, i requires 0 <= i < |hs| => ToVariable(SplitInner(hs[i])));
    var a, b := ToVariable(SplitInner(x)), ToVariable(SplitInner(y));
    assert |vs| == 2 && vs[0] == a && vs[1] == b;
    assert vs == [vs[0], vs[1]];
  }

  lemma TwoHolesResolved(x: string, l: string, y: string, subs: seq<Sub>)
    ensures ResolveAll([Hole(x), Lit(l), Hole(y)], subs) == [Resolve(Hole(x), subs), Lit(l), Resolve(Hole(y), subs)]
  {
  }

  lemma RenderThreeLiterals(a: string, b: string, c: string)
    ensures Render([Lit(a), Lit(b), Lit(c)]) == a + b + c
  {
    var ps := [Lit(a), Lit(b), Lit(c)];
    assert ps[1..] == [Lit(b), Lit(c)] && ps[1..][1..] == [Lit(c)] && ps[1..][1..][1..] == [];
    assert Render([Lit(c)]) == c;
    assert Render(ps[1..]) == b + c;
  }

  lemma DedupPair<T(!new)>(x: T, y: T)
    requires x != y
    ensures Dedup([x, y]) == [x, y]
  {
    assert [x, y][..1] == [x];
  }

  /** A hole holding only a name stands for that name with no default. */
  lemma NameHole(n: string)
    requires Plain(n)
    ensures ToVariable(SplitInner(n)) == Variable(n, "")
  {
    TrimUnpadded(n);
  }

  /** A hole holding a name and a default. */
  lemma DefaultHole(n: string, d: string)
    requires Plain(n) && Plain(d)
    ensures ToVariable(SplitInner(Unsplit(Groups(n, Some(d))))) == Variable(n, d)
  {
    SplitUnsplit(Groups(n, Some(d)));
    TrimUnpadded(n);
    TrimUnpadded(d);
  }

  lemma PrefixTemplate(a: string, b: string)
    requires Plain(a) && Plain(b)
    ensures Clean([Hole(a), Lit(" "), Hole(b)])
    ensures Render([Hole(a), Lit(" "), Hole(b)]) == ("${" + a + "}") + " " + ("${" + b + "}")
  {
    LiteralNameNoDollar(a);
    LiteralNameNoDollar(b);
    ThreeClean(a, " ", b);
    TwoHoles(a, " ", b);
  }

  lemma PrefixVariables(a: string, b: string)
    requires Plain(a) && Plain(b) && a < b
    ensures Dedup(HoleVariables([Hole(a), Lit(" "), Hole(b)])) == [Variable(a, ""), Variable(b, "")]
  {
    TwoHoles(a, " ", b);
    NameHole(a);
    NameHole(b);
    DedupPair(Variable(a, ""), Variable(b, ""));
  }

  lemma PrefixResolved(a: string, b: string)
    requires Plain(a) && Plain(b) && a < b
    ensures Render(ResolveAll([Hole(a), Lit(" "), Hole(b)], UnboundSubs([Variable(a, ""), Variable(b, "")])))
            == ("<b>" + a + "</b>") + " " + ("<b>" + a + "</b>")
  {
    var subs := UnboundSubs([Variable(a, ""), Variable(b, "")]);
    assert subs[0] == Sub(a, "<b>" + a + "</b>");
    FirstFitIs(subs, a, 0);
    FirstFitIs(subs, b, 0);
    TwoHolesResolved(a, " ", b, subs);
    RenderThreeLiterals("<b>" + a + "</b>", " ", "<b>" + a + "</b>");
  }

  /** A name that is a prefix of a longer one takes the longer one's
      placeholder too: in `${a} ${ab}` both become `<b>a</b>`, and the
      variable `ab`, though extracted, never shows. */
  lemma PrefixNameTakesLongerPlaceholder(a: string, b: string, text: string)
    requires Plain(a) && Plain(b) && a < b
    requires text == ("${" + a + "}") + " " + ("${" + b + "}")
    ensures Extract(text) == [Variable(a, ""), Variable(b, "")]
    ensures Substitutable(Extract(text))
    ensures Preview(text, None) == ("<b>" + a + "</b>") + " " + ("<b>" + a + "</b>")
  {
    var ps := [Hole(a), Lit(" "), Hole(b)];
    var vars := [Variable(a, ""), Variable(b, "")];
    var out := ("<b>" + a + "</b>") + " " + ("<b>" + a + "</b>");
    assert Clean(ps) && Render(ps) == text by {
      PrefixTemplate(a, b);
    }
    assert Dedup(HoleVariables(ps)) == vars by {
      PrefixVariables(a, b);
    }
    assert Render(ResolveAll(ps, UnboundSubs(vars))) == out by {
      PrefixResolved(a, b);
    }
    assert Substitutable(vars) by {
      PlainSubstitutable(Variable(a, ""), Variable(b, ""));
    }
    PreviewByResolution(ps, text, vars, out);
  }

  lemma TwoDefaultsVariables(n: string, x: string, y: string)
    requires Plain(n) && Plain(x) && Plain(y) && x != y
    ensures Dedup(HoleVariables([Hole(Unsplit(Groups(n, Some(x)))), Lit(" "), Hole(Unsplit(Groups(n, Some(y))))]))
            == [Variable(n, x), Variable(n, y)]
  {
    TwoHoles(Unsplit(Groups(n, Some(x))), " ", Unsplit(Groups(n, Some(y))));
    DefaultHole(n, x);
    DefaultHole(n, y);
    DedupPair(Variable(n, x), Variable(n, y));
  }

  lemma TwoDefaultsResolved(n: string, x: string, y: string)
    requires Plain(n) && Plain(x) && Plain(y) && x != y
    ensures Render(ResolveAll([Hole(Unsplit(Groups(n, Some(x)))), Lit(" "), Hole(Unsplit(Groups(n, Some(y))))],
                              UnboundSubs([Variable(n, x), Variable(n, y)])))
            == x + " " + x
  {
    var subs := UnboundSubs([Variable(n, x), Variable(n, y)]);
    assert subs[0] == Sub(n, x);
    FirstFitIs(subs, Unsplit(Groups(n, Some(x))), 0);
    FirstFitIs(subs, Unsplit(Groups(n, Some(y))), 0);
    TwoHolesResolved(Unsplit(Groups(n, Some(x))), " ", Unsplit(Groups(n, Some(y))), subs);
    RenderThreeLiterals(x, " ", x);
  }

  lemma DefaultHoleClean(n: string, d: string)
    requires Plain(n) && Plain(d)
    ensures CleanPiece(Hole(Unsplit(Groups(n, Some(d)))))
  {
    assert forall c :: c in n + [':'] + d ==> c in n || c == ':' || c in d;
  }

  lemma ThreeClean(x: string, l: string, y: string)
    requires CleanPiece(Hole(x)) && '$' !in l && CleanPiece(Hole(y))
    ensures Clean([Hole(x), Lit(l), Hole(y)])
  {
  }

  lemma TwoDefaultsTemplate(n: string, x: string, y: string)
    requires Plain(n) && Plain(x) && Plain(y)
    ensures Clean([Hole(Unsplit(Groups(n, Some(x)))), Lit(" "), Hole(Unsplit(Groups(n, Some(y))))])
    ensures Render([Hole(Unsplit(Groups(n, Some(x)))), Lit(" "), Hole(Unsplit(Groups(n, Some(y))))])
            == PlaceholderText(Groups(n, Some(x))) + " " + PlaceholderText(Groups(n, Some(y)))
  {
    DefaultHoleClean(n, x);
    DefaultHoleClean(n, y);
    ThreeClean(Unsplit(Groups(n, Some(x))), " ", Unsplit(Groups(n, Some(y))));
    TwoHoles(Unsplit(Groups(n, Some(x))), " ", Unsplit(Groups(n, Some(y))));
  }

  lemma PlainSubstitutable(v: Variable, w: Variable)
    requires Plain(v.name) && (v.default == "" || Plain(v.default))
    requires Plain(w.name) && (w.default == "" || Plain(w.default))
    ensures Substitutable([v, w])
  {
  }

  /** A name declared with two defaults, as in `${n:x} ${n:y}`: both pairs
      are extracted, and the first default fills both placeholders. */
  lemma FirstDefaultFillsAll(n: string, x: string, y: string, text: string)
    requires Plain(n) && Plain(x) && Plain(y) && x != y
    requires text == PlaceholderText(Groups(n, Some(x))) + " " + PlaceholderText(Groups(n, Some(y)))
    ensures Extract(text) == [Variable(n, x), Variable(n, y)]
    ensures Substitutable(Extract(text))
    ensures Preview(text, None) == x + " " + x
  {
    var ps := [Hole(Unsplit(Groups(n, Some(x)))), Lit(" "), Hole(Unsplit(Groups(n, Some(y))))];
    TwoDefaultsTemplate(n, x, y);
    TwoDefaultsVariables(n, x, y);
    TwoDefaultsResolved(n, x, y);
    PlainSubstitutable(Variable(n, x), Variable(n, y));
    PreviewByResolution(ps, text, [Variable(n, x), Variable(n, y)], x + " " + x);
  }

  lemma PaddedTemplate(x: string)
    requires Plain(x)
    ensures Clean([Hole([' '] + x + [' '])])
    ensures Render([Hole([' '] + x + [' '])]) == "${" + ([' '] + x + [' ']) + "}"
  {
    var inner := [' '] + x + [' '];
    var ps := [Hole(inner)];
    assert forall c :: c in inner ==> c == ' ' || c in x;
    assert ps[1..] == [];
  }

  lemma PaddedVariables(x: string)
    requires Plain(x)
    ensures HoleVariables([Hole([' '] + x + [' '])]) == [Variable(x, "")]
  {
    var inner := [' '] + x + [' '];
    var ps := [Hole(inner)];
    assert ps[1..] == [];
    assert Holes(ps) == [inner];
    assert ':' !in inner by {
      assert forall c :: c in inner ==> c == ' ' || c in x;
    }
    assert SplitInner(inner) == Groups(inner, None);
    TrimSpaced(x);
  }

  lemma PaddedResolved(x: string)
    requires Plain(x)
    ensures ResolveAll([Hole([' '] + x + [' '])], UnboundSubs([Variable(x, "")])) == [Hole([' '] + x + [' '])]
  {
    var inner := [' '] + x + [' '];
    var subs := UnboundSubs([Variable(x, "")]);
    assert !(subs[0].name <= inner) by {
      assert inner[0] == ' ';
    }
  }

  lemma OneVariableSubstitutable(x: string)
    requires Plain(x)
    ensures Substitutable([Variable(x, "")])
  {
  }

  /** A placeholder written with spaces inside its braces is extracted
      under its trimmed name but never replaced. */
  lemma PaddedPlaceholderStays(x: string, text: string)
    requires Plain(x) && text == "${" + ([' '] + x + [' ']) + "}"
    ensures Extract(text) == [Variable(x, "")]
    ensures Substitutable(Extract(text))
    ensures Preview(text, None) == text
  {
    var inner := [' '] + x + [' '];
    PaddedTemplate(x);
    PaddedVariables(x);
    PaddedResolved(x);
    OneVariableSubstitutable(x);
    PreviewByResolution([Hole(inner)], text, [Variable(x, "")], text);
  }
}
