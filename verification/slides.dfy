/**
 * Slides as the plugin sees them, how a slide's declaration is resolved
 * from its dataset, and the container that replaces an exercise slide's
 * children.
 */
module Slides {
  import opened Wrappers
  import opened Text

  /** The identity of a DOM node the model does not look into. */
  type Token = nat

  /**
   * What the plugin reads from a slide: its `dataset`, the text content of
   * the first descendant marked `data-code-exercise-Content` (None when
   * there is none), and the first descendant marked
   * `data-code-exercise-custom-content`.
   */
  datatype Markup = Markup(dataset: map<string, string>, content: Option<string>, customContent: Option<Token>)

  /** The children of the exercise container. */
  datatype Part = Title(text: string) | EditorMount | PreviewFrame | HintsPanel | CustomContent(node: Token)

  /** A child of a slide: authored markup, or the container the plugin builds. */
  datatype Node = Authored(node: Token) | Container(parts: seq<Part>)

  datatype Slide = Slide(markup: Markup, children: seq<Node>)

  /** The dataset marker key, and the keys built from it by appending a suffix. */
  const DataSetPrefix := "codeExercise"
  const TypeKey := DataSetPrefix + "Type"
  const IdKey := DataSetPrefix + "Id"
  const TitleKey := DataSetPrefix + "Title"
  const PreviewKey := DataSetPrefix + "Preview"
  const DefaultExerciseType := "html"
  const DefaultShowPreview := "true"

  /* ---- supported languages ---- */

  /** The allow-list of exercise types, as a type: a resolved type is one of these. */
  datatype SupportedLanguage = Html

  const SupportedLanguages: seq<string> := ["html"]

  function LanguageName(language: SupportedLanguage): string {
    match language
    case Html => "html"
  }

  predicate IsSupportedLanguage(value: string) {
    value in SupportedLanguages
  }

  lemma SupportedLanguageIsHtml(value: string)
    ensures IsSupportedLanguage(value) <==> value == "html"
  {
  }

  /** The narrowing that the allow-list check gives the type in the source. */
  function ParseLanguage(value: string): (r: Option<SupportedLanguage>)
    ensures r.Some? <==> IsSupportedLanguage(value)
    ensures r.Some? ==> LanguageName(r.value) == value
  {
    if value == "html" then Some(Html) else None
  }

  lemma ParseLanguageName(language: SupportedLanguage)
    ensures ParseLanguage(LanguageName(language)) == Some(language)
  {
  }

  /* ---- resolving a declaration ---- */

  /** `dataset[key]`, which is `undefined` for a missing key. */
  function DatasetValue(m: Markup, key: string): (r: Option<string>)
    ensures r.Some? <==> key in m.dataset
    ensures r.Some? ==> r.value == m.dataset[key]
  {
    if key in m.dataset then Some(m.dataset[key]) else None
  }

  /** A slide declares an exercise when its dataset has the marker key, whatever its value. */
  predicate Qualifies(s: Slide) {
    DataSetPrefix in s.markup.dataset
  }

  /** The preview flag: `/^true$/i.test(value)`. */
  function PreviewEnabled(value: string): (b: bool)
    ensures b <==>
      (|value| == 4 && forall i :: 0 <= i < 4 ==> value[i] == "true"[i] || value[i] == "TRUE"[i])
  {
    MatchesIgnoringCaseIff(value, "true");
    MatchesIgnoringCase(value, "true")
  }

  /** `TRUE`, `True` and `true` enable the preview; `false`, the empty string and `yes` do not. */
  lemma PreviewExamples()
    ensures PreviewEnabled("TRUE") && PreviewEnabled("True") && PreviewEnabled("true")
    ensures !PreviewEnabled("false") && !PreviewEnabled("") && !PreviewEnabled("yes")
  {
  }

  datatype Declaration = Declaration(
    content: string,
    exerciseType: string,
    id: Option<string>,
    title: Option<string>,
    preview: bool,
    customContent: Option<Token>)

  function ResolvedType(m: Markup): string {
    DatasetValue(m, TypeKey).GetOr(DefaultExerciseType)
  }

  function ResolvedContent(m: Markup): string {
    RemoveLeadingNewline(m.content.GetOr(""))
  }

  function ResolvedPreview(m: Markup): bool {
    PreviewEnabled(DatasetValue(m, PreviewKey).GetOr(DefaultShowPreview))
  }

  /**
   * The defaults: an undeclared type is "html", which the allow-list
   * accepts; an undeclared preview flag is "true", which enables the
   * preview; a slide without a content element has empty content.
   */
  lemma ResolutionDefaults(m: Markup)
    ensures TypeKey !in m.dataset ==> ResolvedType(m) == "html" && IsSupportedLanguage(ResolvedType(m))
    ensures PreviewKey !in m.dataset ==> ResolvedPreview(m)
    ensures m.content.None? ==> ResolvedContent(m) == ""
  {
  }

  /** Every field the plugin reads from one slide, before the type is checked. */
  function Declare(m: Markup): Declaration {
    Declaration(
      ResolvedContent(m),
      ResolvedType(m),
      DatasetValue(m, IdKey),
      DatasetValue(m, TitleKey),
      ResolvedPreview(m),
      m.customContent)
  }

  /* ---- materialisation ---- */

  /** The position of each kind of part in the container. */
  function Rank(p: Part): nat {
    match p
    case Title(_) => 0
    case EditorMount => 1
    case PreviewFrame => 2
    case HintsPanel => 3
    case CustomContent(_) => 4
  }

  /** Each kind of part appears at most once, and in the order of `Rank`. */
  predicate StrictlyRanked(r: seq<Part>) {
    forall i, j :: 0 <= i < j < |r| ==> Rank(r[i]) < Rank(r[j])
  }

  /** The children of the container, in the order they are appended. */
  function ContainerParts(d: Declaration): seq<Part> {
    (if d.title.Some? then [Title(d.title.value)] else [])
    + [EditorMount]
    + (if d.preview then [PreviewFrame] else [])
    + [HintsPanel]
    + (if d.customContent.Some? then [CustomContent(d.customContent.value)] else [])
  }

  /** Without a title or custom content, the container holds the editor, the preview frame when enabled, and the hints panel. */
  lemma ContainerPartsWithoutOptions(d: Declaration)
    requires d.title.None? && d.customContent.None?
    ensures ContainerParts(d) == if d.preview then [EditorMount, PreviewFrame, HintsPanel] else [EditorMount, HintsPanel]
  {
  }

  /** The kinds of part in the container appear in a fixed order, each at most once. */
  lemma {:induction false} ContainerOrder(d: Declaration)
    ensures StrictlyRanked(ContainerParts(d))
  {
    var title := if d.title.Some? then [Title(d.title.value)] else [];
    var preview := if d.preview then [PreviewFrame] else [];
    var custom := if d.customContent.Some? then [CustomContent(d.customContent.value)] else [];
    var r := ContainerParts(d);
    assert r == title + [EditorMount] + preview + [HintsPanel] + custom;
    forall i, j | 0 <= i < j < |r|
      ensures Rank(r[i]) < Rank(r[j])
    {
      RankAt(title, preview, custom, i);
      RankAt(title, preview, custom, j);
    }
  }

  /** The rank of the part at position `i` of the container, read from the pieces it is made of. */
  lemma RankAt(title: seq<Part>, preview: seq<Part>, custom: seq<Part>, i: nat)
    requires |title| <= 1 && |preview| <= 1 && |custom| <= 1
    requires forall k :: 0 <= k < |title| ==> title[k].Title?
    requires forall k :: 0 <= k < |preview| ==> preview[k] == PreviewFrame
    requires forall k :: 0 <= k < |custom| ==> custom[k].CustomContent?
    requires i < |title| + |preview| + |custom| + 2
    ensures var r := title + [EditorMount] + preview + [HintsPanel] + custom;
      Rank(r[i]) == i + (1 - |title|) + (if i > |title| then 1 - |preview| else 0)
  {
    var r := title + [EditorMount] + preview + [HintsPanel] + custom;
    if i < |title| {
      assert r[i] == title[i];
    } else if i == |title| {
      assert r[i] == EditorMount;
    } else if i < |title| + 1 + |preview| {
      assert r[i] == preview[i - |title| - 1];
    } else if i == |title| + 1 + |preview| {
      assert r[i] == HintsPanel;
    } else {
      assert r[i] == custom[i - |title| - |preview| - 2];
    }
  }

  /**
   * The container always holds the editor mount and the hints panel; the
   * preview frame iff preview is on; the declared title and nothing else as
   * title; the slide's custom content and nothing else as custom content.
   */
  lemma ContainerContents(d: Declaration)
    ensures EditorMount in ContainerParts(d) && HintsPanel in ContainerParts(d)
    ensures PreviewFrame in ContainerParts(d) <==> d.preview
    ensures forall p :: p in ContainerParts(d) && p.Title? ==> d.title == Some(p.text)
    ensures d.title.Some? ==> Title(d.title.value) in ContainerParts(d)
    ensures forall p :: p in ContainerParts(d) && p.CustomContent? ==> d.customContent == Some(p.node)
    ensures d.customContent.Some? ==> CustomContent(d.customContent.value) in ContainerParts(d)
  {
  }

  /**
   * The slide once its children are replaced by the exercise container. The
   * content element goes with the old children; the custom-content node is
   * moved into the container, so the slide still holds it; the dataset is
   * untouched.
   */
  function Materialize(s: Slide, d: Declaration): Slide {
    Slide(s.markup.(content := None), [Container(ContainerParts(d))])
  }

  /** The slide materialised from its own declaration. */
  function Materialized(s: Slide): Slide {
    Materialize(s, Declare(s.markup))
  }

  /**
   * A materialised slide still declares an exercise, and declares the same
   * one except that its content is now empty: reading it again finds no
   * content element.
   */
  lemma MaterializeDropsContent(s: Slide, d: Declaration)
    ensures Materialize(s, d).markup.dataset == s.markup.dataset
    ensures Qualifies(Materialize(s, d)) <==> Qualifies(s)
    ensures Declare(Materialize(s, d).markup) == Declare(s.markup).(content := "")
  {
  }

  /* ---- exercises ---- */

  /**
   * An exercise instance, owned by the external exercise engine. The slide's
   * position stands for the identity of the object built for it.
   */
  datatype Exercise = HtmlExercise(slide: nat, content: string, preview: bool)

  /** The construction the `switch` on the resolved type dispatches to. */
  function Construct(language: SupportedLanguage, i: nat, d: Declaration): Exercise {
    match language
    case Html => HtmlExercise(i, d.content, d.preview)
  }

  /* ---- qualifying slides ---- */

  /** The positions below `n` of the slides that declare an exercise, in deck order. */
  function QualifyingBelow(slides: seq<Slide>, n: nat): (r: seq<nat>)
    requires n <= |slides|
    ensures forall k :: 0 <= k < |r| ==> r[k] < n
  {
    if n == 0 then []
    else QualifyingBelow(slides, n - 1) + (if Qualifies(slides[n - 1]) then [n - 1] else [])
  }

  /**
   * The filter keeps exactly the slides whose dataset has the marker key,
   * each once, in their relative order.
   */
  lemma {:induction false} QualifyingBelowSpec(slides: seq<Slide>, n: nat)
    requires n <= |slides|
    ensures var r := QualifyingBelow(slides, n);
      && (forall k :: 0 <= k < |r| ==> Qualifies(slides[r[k]]))
      && (forall k, l :: 0 <= k < l < |r| ==> r[k] < r[l])
      && (forall j :: 0 <= j < n && Qualifies(slides[j]) ==> j in r)
  {
    if n > 0 {
      QualifyingBelowSpec(slides, n - 1);
    }
  }

  /** `slides.filter(...)`: the exercise slides, kept in their relative order. */
  function ExerciseSlides(slides: seq<Slide>): seq<nat> {
    QualifyingBelow(slides, |slides|)
  }
}
