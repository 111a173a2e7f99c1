/** The modal's chat button (`showModal` and `openModalChat`,
    script.js:295-355, with `openInChat`, script.js:378-379).

    The button holds the prompt until the user types into the variable
    form; every keystroke then stores the latest preview in it, and the
    chat opens with `buildPrompt` of what the button holds. The preview is
    HTML that wraps every value in `<b>...</b>`, so once the user has typed,
    the text handed to the chat carries that markup: typing a value and
    erasing it again changes the chat text from `x ...` to `<b>x</b> ...`.
    `ModalChatText` models the script as it stands; `CorrectedChatText`
    sends the values the user typed, without markup, and agrees with the
    copy button's text whenever nothing has been typed. */
module Modal {
  import opened Options
  import opened Strings
  import opened Scanner
  import opened Extractor
  import opened Substitution
  import opened Templates
  import opened Renderer
  import opened Quirks

  /** What the chat button holds: the prompt, and the latest preview once
      the user has typed into the form of a prompt that has one. */
  function ButtonContent(content: string, form: seq<Input>, typed: bool): (r: string)
    requires FormSubstitutable(form)
    ensures !typed ==> r == content
    ensures Extract(content) == [] ==> r == content
  {
    if typed && Extract(content) != [] then Preview(content, Some(form)) else content
  }

  /** The text the modal's chat button hands to the chat, as written. */
  function ModalChatText(content: string, form: seq<Input>, typed: bool, p: Preferences): (r: string)
    requires FormSubstitutable(form)
    requires Substitutable(Extract(ButtonContent(content, form, typed)))
    ensures |Directive(p)| <= |r| && r[|r| - |Directive(p)|..] == Directive(p)
    ensures !typed ==> r == BuildPrompt(content, p)
  {
    BuildPrompt(ButtonContent(content, form, typed), p)
  }

  /** A text without `$` holds no placeholder, so the extractor finds
      nothing in it. */
  lemma DollarFreeExtractsNothing(s: string)
    requires '$' !in s
    ensures Extract(s) == [] && NoMatch(AnyPlaceholder, s)
  {
    NoDollarNoMatch(AnyPlaceholder, s);
    ExtractEmptyIff(s);
  }

  lemma OneHoleTemplate(x: string)
    requires Plain(x)
    ensures Render([Hole(x)]) == "${" + x + "}"
    ensures Clean([Hole(x)])
  {
    var ps := [Hole(x)];
    assert ps[1..] == [];
    LiteralNameNoDollar(x);
  }

  lemma OneHoleVariables(x: string)
    ensures HoleVariables([Hole(x)]) == [ToVariable(SplitInner(x))]
  {
    var ps := [Hole(x)];
    assert ps[1..] == [];
    assert Holes(ps) == [x];
  }

  lemma DedupOne<T(!new)>(x: T)
    ensures Dedup([x]) == [x]
  {
    assert [x][..0] == [];
  }

  /** The one-hole prompt `${x}` stands for the variable x alone. */
  lemma OneHoleExtract(x: string, content: string)
    requires Plain(x) && content == "${" + x + "}"
    ensures Extract(content) == [Variable(x, "")]
  {
    OneHoleTemplate(x);
    ExtractRender([Hole(x)]);
    OneHoleVariables(x);
    NameHole(x);
    DedupOne(Variable(x, ""));
  }

  /** The single input of the form for `${x}`, holding what was typed. */
  function OneInput(x: string, v: string): Input {
    Input(x, "", Hint(Variable(x, "")), v)
  }

  /** What `${x}` resolves to when the pass for x is the first pass. */
  lemma OneHoleResolved(x: string, subs: seq<Sub>)
    requires |subs| > 0 && subs[0].name == x
    ensures Render(ResolveAll([Hole(x)], subs)) == subs[0].replacement
  {
    FirstFitIs(subs, x, 0);
    var qs := ResolveAll([Hole(x)], subs);
    assert qs == [Lit(subs[0].replacement)];
    assert qs[1..] == [];
  }

  /** The variable of `${x}` is inserted literally, by its own name. */
  lemma OneVariableFinal(x: string)
    requires Plain(x)
    ensures Substitutable([Variable(x, "")])
    ensures var subs := FinalSubs([Variable(x, "")]);
            |subs| == 1 && subs[0].name == x && subs[0].replacement == x
  {
  }

  /** The copy button's text for `${x}`: the name, then the directive. */
  lemma CopyTextOneHole(x: string, content: string, p: Preferences)
    requires Plain(x) && content == "${" + x + "}"
    ensures Substitutable(Extract(content))
    ensures BuildPrompt(content, p) == x + Directive(p)
  {
    OneHoleTemplate(x);
    OneHoleExtract(x, content);
    OneVariableFinal(x);
    BuildPromptTemplate([Hole(x)], p);
    OneHoleResolved(x, FinalSubs([Variable(x, "")]));
  }

  /** The bound replacement of the one input: the typed value, or the
      name when nothing was typed, in bold markup. */
  lemma OneInputReplacement(x: string, v: string)
    requires Plain(x) && (v == "" || Plain(v))
    ensures FormSubstitutable([OneInput(x, v)])
    ensures BoundReplacement(OneInput(x, v)) == "<b>" + (if v == "" then x else v) + "</b>"
    ensures '$' !in BoundReplacement(OneInput(x, v))
    ensures PlainBoundReplacement(OneInput(x, v)) == if v == "" then x else v
  {
    LiteralNameNoDollar(x);
    if v != "" {
      LiteralNameNoDollar(v);
      TrimUnpadded(v);
    }
  }

  /** The preview of `${x}` with its form: the bound replacement. */
  lemma PreviewOneInput(x: string, v: string, content: string)
    requires Plain(x) && (v == "" || Plain(v)) && content == "${" + x + "}"
    ensures FormSubstitutable([OneInput(x, v)])
    ensures Preview(content, Some([OneInput(x, v)])) == BoundReplacement(OneInput(x, v))
  {
    OneInputReplacement(x, v);
    OneHoleTemplate(x);
    PreviewBoundTemplate([Hole(x)], [OneInput(x, v)]);
    OneHoleResolved(x, BoundSubs([OneInput(x, v)]));
  }

  /** What the chat button holds for `${x}` once v has been typed. */
  lemma ButtonOneHole(x: string, v: string, content: string)
    requires Plain(x) && (v == "" || Plain(v)) && content == "${" + x + "}"
    ensures FormSubstitutable([OneInput(x, v)])
    ensures ButtonContent(content, [OneInput(x, v)], true) == "<b>" + (if v == "" then x else v) + "</b>"
    ensures Extract(ButtonContent(content, [OneInput(x, v)], true)) == []
  {
    var form := [OneInput(x, v)];
    OneHoleExtract(x, content);
    PreviewOneInput(x, v, content);
    var w := BoundReplacement(OneInput(x, v));
    assert ButtonContent(content, form, true) == Preview(content, Some(form)) == w;
    OneInputReplacement(x, v);
    DollarFreeExtractsNothing(w);
  }

  /** On `${x}`, before any typing, the chat receives the name followed by
      the directive. */
  lemma NameBeforeTyping(x: string, v: string, p: Preferences, content: string)
    requires Plain(x) && (v == "" || Plain(v)) && content == "${" + x + "}"
    ensures FormSubstitutable([OneInput(x, v)])
    ensures Substitutable(Extract(content))
    ensures ModalChatText(content, [OneInput(x, v)], false, p) == x + Directive(p)
  {
    OneInputReplacement(x, v);
    CopyTextOneHole(x, content, p);
  }

  /** On `${x}`, once the form has been typed into, the chat receives the
      value v in bold markup, or the name in bold markup when v was erased
      again. */
  lemma BoldReachesChat(x: string, v: string, p: Preferences, content: string)
    requires Plain(x) && (v == "" || Plain(v)) && content == "${" + x + "}"
    ensures FormSubstitutable([OneInput(x, v)])
    ensures Extract(ButtonContent(content, [OneInput(x, v)], true)) == []
    ensures ModalChatText(content, [OneInput(x, v)], true, p)
            == ("<b>" + (if v == "" then x else v) + "</b>") + Directive(p)
  {
    ButtonOneHole(x, v, content);
    var w := ButtonContent(content, [OneInput(x, v)], true);
    OneInputReplacement(x, v);
    DollarFreeExtractsNothing(w);
  }

  // ---- the corrected chat text ----

  /** The trimmed value, else the default, else the name, as the preview
      chooses it, without markup. */
  function PlainBoundReplacement(f: Input): (r: string)
    ensures BoundReplacement(f) == "<b>" + r + "</b>"
  {
    var value := Trim(f.value);
    if value != "" then value else if f.default != "" then f.default else f.name
  }

  function PlainBoundSubs(form: seq<Input>): (subs: seq<Sub>)
    ensures |subs| == |form|
    ensures forall i :: 0 <= i < |form| ==> subs[i].name == BoundSubs(form)[i].name
  {
    seq(|form|, i requires 0 <= i < |form| => Sub(form[i].name, PlainBoundReplacement(form[i])))
  }

  lemma PlainBoundSubsSafe(form: seq<Input>)
    requires FormSubstitutable(form)
    ensures SafeSubs(PlainBoundSubs(form)) && DollarFree(PlainBoundSubs(form))
  {
    forall i | 0 <= i < |form|
      ensures '$' !in PlainBoundReplacement(form[i])
    {
      LiteralNameNoDollar(form[i].name);
      TrimKeepsChars(form[i].value);
    }
  }

  /** The final text with the form's values: every input substituted in
      field order, without markup, then the directive. */
  function BoundFinal(content: string, form: seq<Input>, p: Preferences): (r: string)
    requires FormSubstitutable(form)
    ensures |Directive(p)| <= |r| && r[|r| - |Directive(p)|..] == Directive(p)
    ensures NoMatch(AnyPlaceholder, content) ==> r == content + Directive(p)
  {
    ExtractEmptyIff(content);
    (if Extract(content) == [] then content else Substitute(content, PlainBoundSubs(form))) + Directive(p)
  }

  /** The text the chat button should hand to the chat: the copy button's
      text until the user types, then the final text with the typed
      values. */
  function CorrectedChatText(content: string, form: seq<Input>, typed: bool, p: Preferences): (r: string)
    requires Substitutable(Extract(content)) && FormSubstitutable(form)
    ensures |Directive(p)| <= |r| && r[|r| - |Directive(p)|..] == Directive(p)
    ensures !typed ==> r == ModalChatText(content, form, typed, p)
  {
    if typed then BoundFinal(content, form, p) else BuildPrompt(content, p)
  }

  /** The corrected text of a template: every hole takes the markup-free
      replacement of the same input the preview chooses for it, so that
      each hole of the preview is that replacement in bold. */
  lemma CorrectedMatchesPreview(ps: seq<Piece>, form: seq<Input>, p: Preferences)
    requires Clean(ps) && FormSubstitutable(form)
    ensures BoundFinal(Render(ps), form, p) == Render(ResolveAll(ps, PlainBoundSubs(form))) + Directive(p)
    ensures Preview(Render(ps), Some(form)) == Render(ResolveAll(ps, BoundSubs(form)))
    ensures forall k :: 0 <= k < |ps| ==>
              ResolveAll(ps, BoundSubs(form))[k]
              == (if ResolveAll(ps, PlainBoundSubs(form))[k] == ps[k] then ps[k]
                  else Lit("<b>" + ResolveAll(ps, PlainBoundSubs(form))[k].s + "</b>"))
  {
    var subs, plain := BoundSubs(form), PlainBoundSubs(form);
    PreviewBoundTemplate(ps, form);
    ExtractEmptyTemplate(ps);
    if Extract(Render(ps)) == [] {
      ResolveWithoutHoles(ps, plain);
    } else {
      PlainBoundSubsSafe(form);
      SubstituteRender(ps, plain);
    }
    forall k | 0 <= k < |ps|
      ensures ResolveAll(ps, subs)[k]
              == (if ResolveAll(ps, plain)[k] == ps[k] then ps[k]
                  else Lit("<b>" + ResolveAll(ps, plain)[k].s + "</b>"))
    {
      if ps[k].Hole? {
        FirstFitNamesOnly(subs, plain, ps[k].inner);
      }
    }
  }

  /** When the form is the one built for the prompt and every input is
      blank, the corrected chat text is the copy button's text, typed or
      not. */
  lemma CorrectedBlankFormIsCopyText(content: string, form: seq<Input>, typed: bool, p: Preferences)
    requires Substitutable(Extract(content)) && FormSubstitutable(form)
    requires FormVariables(form) == Extract(content)
    requires forall i :: 0 <= i < |form| ==> Trim(form[i].value) == ""
    ensures CorrectedChatText(content, form, typed, p) == BuildPrompt(content, p)
  {
    var vars := Extract(content);
    forall i | 0 <= i < |form|
      ensures PlainBoundSubs(form)[i] == FinalSubs(vars)[i]
    {
      assert FormVariables(form)[i] == vars[i];
    }
    assert PlainBoundSubs(form) == FinalSubs(vars);
  }

  /** On `${x}`, once the user has typed, the corrected chat text is the
      typed value, or the name after erasing, never in markup. Before
      typing it is the copy button's text, `x` and the directive, as for
      the script. */
  lemma CorrectedOneHole(x: string, v: string, p: Preferences, content: string)
    requires Plain(x) && (v == "" || Plain(v)) && content == "${" + x + "}"
    ensures Substitutable(Extract(content)) && FormSubstitutable([OneInput(x, v)])
    ensures CorrectedChatText(content, [OneInput(x, v)], true, p) == (if v == "" then x else v) + Directive(p)
  {
    BoundFinalOneHole(x, v, p, content);
  }

  /** The fold of passes over `${x}` when the first pass is named x. */
  lemma SubstituteOneHole(x: string, subs: seq<Sub>)
    requires Plain(x) && DollarFree(subs) && |subs| > 0 && subs[0].name == x
    ensures Substitute("${" + x + "}", subs) == subs[0].replacement
  {
    OneHoleTemplate(x);
    SubstituteRender([Hole(x)], subs);
    OneHoleResolved(x, subs);
  }

  /** The corrected final text of `${x}` with v typed. */
  lemma BoundFinalOneHole(x: string, v: string, p: Preferences, content: string)
    requires Plain(x) && (v == "" || Plain(v)) && content == "${" + x + "}"
    ensures Substitutable(Extract(content)) && FormSubstitutable([OneInput(x, v)])
    ensures BoundFinal(content, [OneInput(x, v)], p) == (if v == "" then x else v) + Directive(p)
  {
    var form := [OneInput(x, v)];
    OneInputReplacement(x, v);
    OneHoleExtract(x, content);
    OneVariableSubstitutable(x);
    PlainBoundSubsSafe(form);
    SubstituteOneHole(x, PlainBoundSubs(form));
  }
}
