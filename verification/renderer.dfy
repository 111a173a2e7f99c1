/** The variable form (`createVariableInputs`, script.js:31-56), the preview
    (`updatePromptPreview`, script.js:59-88) and the final text handed to a
    chat platform (`buildPrompt`, script.js:412-434). */
module Renderer {
  import opened Options
  import opened Strings
  import opened Scanner
  import opened Extractor
  import opened Substitution
  import opened Templates

  // ---- the variable form ----

  /** One text input of the form: the variable it stands for (its
      `data-variable` and `data-default`), its placeholder hint, and what the
      user has typed. */
  datatype Input = Input(name: string, default: string, hint: string, value: string)

  /** The hint shown in an empty input. */
  function Hint(v: Variable): (h: string)
    ensures |h| > 0
    ensures v.default != "" ==> h == v.default
    ensures v.default == "" ==> |h| == 6 + |v.name| && h[..6] == "Enter " && h[6..] == v.name
  {
    if v.default != "" then v.default else "Enter " + v.name
  }

  /** The variables a form stands for, in field order. */
  function FormVariables(form: seq<Input>): (vs: seq<Variable>)
    ensures |vs| == |form|
  {
    seq(|form|, i requires 0 <= i < |form| => Variable(form[i].name, form[i].default))
  }

  /** One empty input per variable, in the order given. */
  function CreateForm(vars: seq<Variable>): (form: seq<Input>)
    ensures |form| == |vars|
    ensures forall i :: 0 <= i < |form| ==> form[i].value == "" && form[i].hint == Hint(vars[i])
  {
    seq(|vars|, i requires 0 <= i < |vars| => Input(vars[i].name, vars[i].default, Hint(vars[i]), ""))
  }

  /** A fresh form stands for exactly the variables it was built from, in
      their order. */
  lemma FormVariablesOfCreateForm(vars: seq<Variable>)
    ensures FormVariables(CreateForm(vars)) == vars
  {
  }

  // ---- the replacements ----

  /** Without a form: the default, else the name in bold. The preview
      shows what the final text will hold, marked up exactly when it is a
      bare name. */
  function UnboundReplacement(v: Variable): (r: string)
    ensures v.default != "" ==> r == FinalReplacement(v)
    ensures v.default == "" ==> r == "<b>" + FinalReplacement(v) + "</b>"
  {
    if v.default != "" then v.default else "<b>" + v.name + "</b>"
  }

  /** With a form: the trimmed value, else the default, else the name,
      always in bold. Left blank, an input shows in bold what the final text
      will hold. */
  function BoundReplacement(f: Input): (r: string)
    ensures |r| >= 7 && r[..3] == "<b>" && r[|r| - 4..] == "</b>"
    ensures Trim(f.value) == "" ==> r == "<b>" + FinalReplacement(Variable(f.name, f.default)) + "</b>"
    ensures Trim(f.value) != "" ==> r[3..|r| - 4] == Trim(f.value)
  {
    var value := Trim(f.value);
    var shown := if value != "" then value else if f.default != "" then f.default else f.name;
    Framed("<b>", shown, "</b>");
    "<b>" + shown + "</b>"
  }

  /** In the final text: the default, else the name, never in bold; an empty
      default counts as missing. */
  function FinalReplacement(v: Variable): (r: string)
    ensures v.default != "" ==> r == v.default
    ensures v.default == "" ==> r == v.name
    ensures forall c :: c in r ==> c in v.default || c in v.name
  {
    if v.default != "" then v.default else v.name
  }

  function UnboundSubs(vars: seq<Variable>): (subs: seq<Sub>)
    ensures |subs| == |vars|
  {
    seq(|vars|, i requires 0 <= i < |vars| => Sub(vars[i].name, UnboundReplacement(vars[i])))
  }

  function BoundSubs(form: seq<Input>): (subs: seq<Sub>)
    ensures |subs| == |form|
  {
    seq(|form|, i requires 0 <= i < |form| => Sub(form[i].name, BoundReplacement(form[i])))
  }

  function FinalSubs(vars: seq<Variable>): (subs: seq<Sub>)
    ensures |subs| == |vars|
  {
    seq(|vars|, i requires 0 <= i < |vars| => Sub(vars[i].name, FinalReplacement(vars[i])))
  }

  /** Variables the script's regular expressions and replacement strings
      treat literally: no regex metacharacter in a name, no `$` in a
      default. */
  predicate Substitutable(vars: seq<Variable>) {
    forall i :: 0 <= i < |vars| ==> LiteralName(vars[i].name) && '$' !in vars[i].default
  }

  /** The same for a form, whose typed values are inserted too. */
  predicate FormSubstitutable(form: seq<Input>) {
    forall i :: 0 <= i < |form| ==>
      LiteralName(form[i].name) && '$' !in form[i].default && '$' !in form[i].value
  }

  lemma LiteralNameNoDollar(name: string)
    requires LiteralName(name)
    ensures '$' !in name && '$' !in "<b>" + name + "</b>"
  {
  }

  lemma UnboundSubsSafe(vars: seq<Variable>)
    requires Substitutable(vars)
    ensures SafeSubs(UnboundSubs(vars)) && DollarFree(UnboundSubs(vars))
  {
    forall i | 0 <= i < |vars| {
      LiteralNameNoDollar(vars[i].name);
    }
  }

  lemma BoundSubsSafe(form: seq<Input>)
    requires FormSubstitutable(form)
    ensures SafeSubs(BoundSubs(form)) && DollarFree(BoundSubs(form))
  {
    forall i | 0 <= i < |form|
      ensures '$' !in BoundReplacement(form[i])
    {
      LiteralNameNoDollar(form[i].name);
      TrimKeepsChars(form[i].value);
    }
  }

  lemma FinalSubsSafe(vars: seq<Variable>)
    requires Substitutable(vars)
    ensures SafeSubs(FinalSubs(vars)) && DollarFree(FinalSubs(vars))
  {
    forall i | 0 <= i < |vars| {
      LiteralNameNoDollar(vars[i].name);
    }
  }

  // ---- the preview ----

  /** `updatePromptPreview(text, form)`: without a form (None) every
      extracted variable is substituted with its unbound replacement; with
      one, every input in field order with its bound replacement. */
  function Preview(text: string, form: Option<seq<Input>>): (r: string)
    requires form.None? ==> Substitutable(Extract(text))
    requires form.Some? ==> FormSubstitutable(form.value)
    ensures NoMatch(AnyPlaceholder, text) ==> r == text
  {
    var vars := Extract(text);
    ExtractEmptyIff(text);
    if |vars| == 0 then text
    else
      match form
      case None => Substitute(text, UnboundSubs(vars))
      case Some(f) => Substitute(text, BoundSubs(f))
  }

  /** Resolving a template without holes changes nothing. */
  lemma ResolveWithoutHoles(ps: seq<Piece>, subs: seq<Sub>)
    requires Holes(ps) == []
    ensures ResolveAll(ps, subs) == ps
  {
    NoHolesAllLiteral(ps);
  }

  /** The extractor finds nothing in a template exactly when it has no
      holes. */
  lemma ExtractEmptyTemplate(ps: seq<Piece>)
    requires Clean(ps)
    ensures Extract(Render(ps)) == [] <==> Holes(ps) == []
  {
    ExtractRender(ps);
    var hv := HoleVariables(ps);
    if |hv| > 0 {
      assert hv[0] in Extract(Render(ps));
    }
  }

  /** The preview of a template without a form: each hole becomes the
      unbound replacement of the first extracted variable whose name is a
      prefix of its inner text, and is kept when there is none. */
  lemma PreviewUnboundTemplate(ps: seq<Piece>)
    requires Clean(ps) && Substitutable(Extract(Render(ps)))
    ensures Preview(Render(ps), None) == Render(ResolveAll(ps, UnboundSubs(Extract(Render(ps)))))
  {
    var vars := Extract(Render(ps));
    ExtractEmptyTemplate(ps);
    if vars == [] {
      ResolveWithoutHoles(ps, UnboundSubs(vars));
    } else {
      UnboundSubsSafe(vars);
      SubstituteRender(ps, UnboundSubs(vars));
    }
  }

  /** The preview of a template with a form: each hole becomes the bound
      replacement of the first input whose name is a prefix of its inner
      text, and is kept when there is none. */
  lemma PreviewBoundTemplate(ps: seq<Piece>, form: seq<Input>)
    requires Clean(ps) && FormSubstitutable(form)
    ensures Preview(Render(ps), Some(form)) == Render(ResolveAll(ps, BoundSubs(form)))
  {
    var vars := Extract(Render(ps));
    ExtractEmptyTemplate(ps);
    if vars == [] {
      ResolveWithoutHoles(ps, BoundSubs(form));
    } else {
      BoundSubsSafe(form);
      SubstituteRender(ps, BoundSubs(form));
    }
  }

  /** Retyping an input changes only that input's pass. */
  lemma BoundSubsUpdate(form: seq<Input>, j: nat, value: string)
    requires j < |form|
    ensures BoundSubs(form[j := form[j].(value := value)])
            == BoundSubs(form)[j := Sub(form[j].name, BoundReplacement(form[j].(value := value)))]
  {
  }

  /** With a form, an input that comes after another input of the same name
      never shows: whatever the user types into it, the preview is the
      same. */
  lemma LaterInputIgnored(ps: seq<Piece>, form: seq<Input>, i: nat, j: nat, value: string)
    requires Clean(ps) && FormSubstitutable(form) && '$' !in value
    requires i < j < |form| && form[i].name == form[j].name
    ensures Preview(Render(ps), Some(form[j := form[j].(value := value)])) == Preview(Render(ps), Some(form))
  {
    var form' := form[j := form[j].(value := value)];
    var subs, subs' := BoundSubs(form), BoundSubs(form');
    BoundSubsUpdate(form, j, value);
    assert FormSubstitutable(form');
    PreviewBoundTemplate(ps, form);
    PreviewBoundTemplate(ps, form');
    ResolveAllWithoutRepeat(ps, subs, i, j);
    ResolveAllWithoutRepeat(ps, subs', i, j);
    assert subs[..j] + subs[j + 1..] == subs'[..j] + subs'[j + 1..];
  }

  lemma UnboundSubsWithout(vars: seq<Variable>, j: nat)
    requires j < |vars|
    ensures UnboundSubs(vars[..j] + vars[j + 1..]) == UnboundSubs(vars)[..j] + UnboundSubs(vars)[j + 1..]
  {
    var l, r := UnboundSubs(vars[..j] + vars[j + 1..]), UnboundSubs(vars)[..j] + UnboundSubs(vars)[j + 1..];
    forall m | 0 <= m < |l|
      ensures l[m] == r[m]
    {
      if m < j {
        assert (vars[..j] + vars[j + 1..])[m] == vars[m];
      } else {
        assert (vars[..j] + vars[j + 1..])[m] == vars[m + 1];
      }
    }
  }

  /** Without a form, a variable extracted after another one of the same
      name (a second default for it) never shows: the preview is the same
      without it. */
  lemma LaterDefaultIgnored(ps: seq<Piece>, i: nat, j: nat)
    requires Clean(ps) && Substitutable(Extract(Render(ps)))
    requires i < j < |Extract(Render(ps))|
    requires Extract(Render(ps))[i].name == Extract(Render(ps))[j].name
    ensures var vars := Extract(Render(ps));
            Preview(Render(ps), None) == Render(ResolveAll(ps, UnboundSubs(vars[..j] + vars[j + 1..])))
  {
    var vars := Extract(Render(ps));
    var subs := UnboundSubs(vars);
    UnboundSubsWithout(vars, j);
    assert subs[i].name == subs[j].name;
    ResolveAllWithoutRepeat(ps, subs, i, j);
    PreviewUnboundTemplate(ps);
  }

  // ---- which holes are replaced ----

  /** The passes carry the names of the variables, one for one. */
  predicate NamedAfter(subs: seq<Sub>, vars: seq<Variable>) {
    |subs| == |vars| && forall m :: 0 <= m < |subs| ==> subs[m].name == vars[m].name
  }

  lemma NamedAfterSubs(vars: seq<Variable>)
    ensures NamedAfter(UnboundSubs(vars), vars)
    ensures NamedAfter(FinalSubs(vars), vars)
    ensures NamedAfter(BoundSubs(CreateForm(vars)), vars)
  {
  }

  /** A hole whose inner text does not start with white space carries its
      own variable's name at its head. */
  lemma OwnNameFits(inner: string)
    requires |inner| > 0 && !IsJsSpace(inner[0])
    ensures ToVariable(SplitInner(inner)).name <= inner
  {
    var g := SplitInner(inner);
    assert g.name <= Unsplit(g);
    if |g.name| > 0 {
      assert g.name[0] == inner[0];
    }
    TrimPrefix(g.name);
  }

  /** Every hole's own variable is among the extracted ones. */
  lemma HoleVariableExtracted(ps: seq<Piece>, k: nat)
    requires Clean(ps) && k < |ps| && ps[k].Hole?
    ensures ToVariable(SplitInner(ps[k].inner)) in Extract(Render(ps))
  {
    HoleInHoles(ps, k);
    var h :| 0 <= h < |Holes(ps)| && Holes(ps)[h] == ps[k].inner;
    assert HoleVariables(ps)[h] == ToVariable(SplitInner(ps[k].inner));
    ExtractRender(ps);
  }

  /** A hole is replaced by passes named after variables that include the
      hole's own, when that name is a prefix of its inner text. */
  lemma OwnPassFits(inner: string, vars: seq<Variable>, subs: seq<Sub>)
    requires NamedAfter(subs, vars) && ToVariable(SplitInner(inner)) in vars
    requires ToVariable(SplitInner(inner)).name <= inner
    ensures FirstFit(subs, inner).Some?
  {
    var m :| 0 <= m < |vars| && vars[m] == ToVariable(SplitInner(inner));
    assert subs[m].name <= inner;
  }

  /** Every hole of a template that does not start with white space is
      replaced by passes named after the extracted variables. */
  lemma UnpaddedHoleResolved(ps: seq<Piece>, subs: seq<Sub>, k: nat)
    requires Clean(ps) && NamedAfter(subs, Extract(Render(ps)))
    requires k < |ps| && ps[k].Hole? && !IsJsSpace(ps[k].inner[0])
    ensures FirstFit(subs, ps[k].inner).Some?
  {
    var vars := Extract(Render(ps));
    HoleVariableExtracted(ps, k);
    OwnNameFits(ps[k].inner);
    OwnPassFits(ps[k].inner, vars, subs);
  }

  lemma ResolvedLiteral(q: Piece, subs: seq<Sub>)
    requires CleanPiece(q) && DollarFree(subs)
    requires q.Hole? ==> FirstFit(subs, q.inner).Some?
    ensures Resolve(q, subs).Lit? && '$' !in Resolve(q, subs).s
  {
  }

  lemma UnpaddedAllLiteral(ps: seq<Piece>, subs: seq<Sub>)
    requires Clean(ps) && DollarFree(subs) && NamedAfter(subs, Extract(Render(ps)))
    requires forall k :: 0 <= k < |ps| && ps[k].Hole? ==> !IsJsSpace(ps[k].inner[0])
    ensures forall k :: 0 <= k < |ps| ==> Resolve(ps[k], subs).Lit? && '$' !in Resolve(ps[k], subs).s
  {
    forall k | 0 <= k < |ps|
      ensures Resolve(ps[k], subs).Lit? && '$' !in Resolve(ps[k], subs).s
    {
      if ps[k].Hole? {
        UnpaddedHoleResolved(ps, subs, k);
      }
      ResolvedLiteral(ps[k], subs);
    }
  }

  /** When no hole starts with white space, no `$` is left after the passes
      named after the extracted variables, so nothing that looks like a
      placeholder is either. */
  lemma UnpaddedTemplateResolved(ps: seq<Piece>, subs: seq<Sub>)
    requires Clean(ps) && DollarFree(subs) && NamedAfter(subs, Extract(Render(ps)))
    requires forall k :: 0 <= k < |ps| && ps[k].Hole? ==> !IsJsSpace(ps[k].inner[0])
    ensures '$' !in Render(ResolveAll(ps, subs))
    ensures NoMatch(AnyPlaceholder, Render(ResolveAll(ps, subs)))
  {
    var qs := ResolveAll(ps, subs);
    UnpaddedAllLiteral(ps, subs);
    assert forall k :: 0 <= k < |qs| ==> qs[k] == Resolve(ps[k], subs);
    RenderLiteral(qs);
    NoDollarNoMatch(AnyPlaceholder, Render(qs));
  }

  /** A hole whose inner text starts with white space, such as `${ x }`,
      is never replaced by passes whose names are trimmed and non-empty. */
  lemma PaddedHoleKept(inner: string, subs: seq<Sub>)
    requires |inner| > 0 && IsJsSpace(inner[0])
    requires forall m :: 0 <= m < |subs| ==> subs[m].name != [] && !IsJsSpace(subs[m].name[0])
    ensures Resolve(Hole(inner), subs) == Hole(inner)
  {
    assert forall m :: 0 <= m < |subs| ==> !(subs[m].name <= inner);
  }

  /** The extracted names are trimmed. */
  lemma ExtractedNamesTrimmed(text: string)
    ensures forall v :: v in Extract(text) ==> v.name == [] || !IsJsSpace(v.name[0])
  {
  }

  lemma PaddedHoleKeptByNames(inner: string, vars: seq<Variable>)
    requires |inner| > 0 && IsJsSpace(inner[0])
    requires forall v :: v in vars ==> v.name != [] && !IsJsSpace(v.name[0])
    ensures Resolve(Hole(inner), UnboundSubs(vars)) == Hole(inner)
  {
    var subs := UnboundSubs(vars);
    forall m | 0 <= m < |subs|
      ensures subs[m].name != [] && !IsJsSpace(subs[m].name[0])
    {
      assert vars[m] in vars;
    }
    PaddedHoleKept(inner, subs);
  }

  /** In the preview without a form, a padded hole stays as written unless
      some extracted name is empty. */
  lemma PaddedHoleKeptInPreview(ps: seq<Piece>, k: nat)
    requires Clean(ps) && Substitutable(Extract(Render(ps)))
    requires forall v :: v in Extract(Render(ps)) ==> v.name != []
    requires k < |ps| && ps[k].Hole? && IsJsSpace(ps[k].inner[0])
    ensures ResolveAll(ps, UnboundSubs(Extract(Render(ps))))[k] == ps[k]
  {
    var vars := Extract(Render(ps));
    ExtractedNamesTrimmed(Render(ps));
    PaddedHoleKeptByNames(ps[k].inner, vars);
  }

  // ---- the final text ----

  /** The settings `buildPrompt` reads from the page: the language and tone
      selects with their custom fields, and the audience select. */
  datatype Preferences = Preferences(
    language: string, customLanguage: string,
    tone: string, customTone: string,
    audience: string)

  /** A select's value, or its custom field when the select says `custom`. */
  function Chosen(selected: string, custom: string): string {
    if selected == "custom" then custom else selected
  }

  /** The sentence appended to every final text. */
  function Directive(p: Preferences): (r: string)
    ensures var lang, n := Chosen(p.language, p.customLanguage), |p.audience| + 11;
            |r| >= 10 + |lang| + n && r[..10] == " Reply in " && r[10..10 + |lang|] == lang
            && r[|r| - n..] == " tone for " + p.audience + "."
    ensures var lang, n := Chosen(p.language, p.customLanguage), |p.audience| + 11;
            r[10 + |lang|..|r| - n] == " using " + Chosen(p.tone, p.customTone)
  {
    var lang, tone := Chosen(p.language, p.customLanguage), Chosen(p.tone, p.customTone);
    var middle := " using " + tone;
    Framed(" Reply in " + lang, middle, " tone for " + p.audience + ".");
    Framed(" Reply in ", lang, middle);
    " Reply in " + lang + middle + (" tone for " + p.audience + ".")
  }

  /** `buildPrompt(text)`: every extracted variable substituted with its
      default or, failing that, its name, then the directive. What the user
      typed into the form plays no part. */
  function BuildPrompt(text: string, p: Preferences): (r: string)
    requires Substitutable(Extract(text))
    ensures |Directive(p)| <= |r| && r[|r| - |Directive(p)|..] == Directive(p)
    ensures NoMatch(AnyPlaceholder, text) ==> r == text + Directive(p)
  {
    ExtractEmptyIff(text);
    Substitute(text, FinalSubs(Extract(text))) + Directive(p)
  }

  /** The final text of a template: each hole becomes the default, else the
      name, of the first extracted variable whose name is a prefix of its
      inner text, and is kept when there is none; the directive follows. */
  lemma BuildPromptTemplate(ps: seq<Piece>, p: Preferences)
    requires Clean(ps) && Substitutable(Extract(Render(ps)))
    ensures BuildPrompt(Render(ps), p) == Render(ResolveAll(ps, FinalSubs(Extract(Render(ps))))) + Directive(p)
  {
    FinalSubsSafe(Extract(Render(ps)));
    SubstituteRender(ps, FinalSubs(Extract(Render(ps))));
  }

  /** When every extracted variable has a default, the final text is the
      preview without a form followed by the directive. */
  lemma BuildPromptExtendsPreview(text: string, p: Preferences)
    requires Substitutable(Extract(text))
    requires forall v :: v in Extract(text) ==> v.default != ""
    ensures BuildPrompt(text, p) == Preview(text, None) + Directive(p)
  {
    var vars := Extract(text);
    assert forall m :: 0 <= m < |vars| ==> vars[m] in vars;
    assert UnboundSubs(vars) == FinalSubs(vars);
  }

  /** When no hole starts with white space, the final text holds no
      placeholder before the directive. */
  lemma BuildPromptComplete(ps: seq<Piece>, p: Preferences)
    requires Clean(ps) && Substitutable(Extract(Render(ps)))
    requires forall k :: 0 <= k < |ps| && ps[k].Hole? ==> !IsJsSpace(ps[k].inner[0])
    ensures var r := BuildPrompt(Render(ps), p);
            NoMatch(AnyPlaceholder, r[..|r| - |Directive(p)|])
  {
    var vars := Extract(Render(ps));
    var r := BuildPrompt(Render(ps), p);
    BuildPromptTemplate(ps, p);
    FinalSubsSafe(vars);
    NamedAfterSubs(vars);
    UnpaddedTemplateResolved(ps, FinalSubs(vars));
    assert r[..|r| - |Directive(p)|] == Render(ResolveAll(ps, FinalSubs(vars)));
  }

  /** A fresh form is as safe to substitute as its variables. */
  lemma CreateFormSubstitutable(vars: seq<Variable>)
    requires Substitutable(vars)
    ensures FormSubstitutable(CreateForm(vars))
  {
  }

  /** When no hole starts with white space, the preview without a form
      holds no placeholder. */
  lemma PreviewUnboundComplete(ps: seq<Piece>)
    requires Clean(ps) && Substitutable(Extract(Render(ps)))
    requires forall k :: 0 <= k < |ps| && ps[k].Hole? ==> !IsJsSpace(ps[k].inner[0])
    ensures NoMatch(AnyPlaceholder, Preview(Render(ps), None))
  {
    var vars := Extract(Render(ps));
    NamedAfterSubs(vars);
    PreviewUnboundTemplate(ps);
    UnboundSubsSafe(vars);
    UnpaddedTemplateResolved(ps, UnboundSubs(vars));
  }

  /** When no hole starts with white space, the preview with the form built
      for the template holds no placeholder, whatever is typed into it. */
  lemma PreviewBoundComplete(ps: seq<Piece>, form: seq<Input>)
    requires Clean(ps) && FormSubstitutable(form)
    requires FormVariables(form) == Extract(Render(ps))
    requires forall k :: 0 <= k < |ps| && ps[k].Hole? ==> !IsJsSpace(ps[k].inner[0])
    ensures NoMatch(AnyPlaceholder, Preview(Render(ps), Some(form)))
  {
    var vars := Extract(Render(ps));
    assert NamedAfter(BoundSubs(form), vars) by {
      forall m | 0 <= m < |form|
        ensures BoundSubs(form)[m].name == vars[m].name
      {
        assert FormVariables(form)[m].name == form[m].name;
      }
    }
    PreviewBoundTemplate(ps, form);
    BoundSubsSafe(form);
    UnpaddedTemplateResolved(ps, BoundSubs(form));
  }
}
