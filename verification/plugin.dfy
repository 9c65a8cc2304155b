/**
 * The plugin: one pass over the deck at initialisation that turns every
 * exercise slide into an exercise container, and the registry of exercises
 * that declared an id.
 */
module Plugin {
  import opened Wrappers
  import opened Slides

  /** How `init` ends: normally, or by throwing a message. */
  datatype InitOutcome = Completed | Thrown(message: string)

  /** The deck, the registry and the outcome after (part of) an initialisation pass. */
  datatype Run = Run(slides: seq<Slide>, registry: map<string, Exercise>, outcome: InitOutcome)

  function UnsupportedMessage(exerciseType: string): string {
    "Unsupported exercise type: " + exerciseType
  }

  /** `_excercises.set(id, exercise)` when an id was declared; a reused id is overwritten. */
  function Register(registry: map<string, Exercise>, id: Option<string>, exercise: Exercise): (r: map<string, Exercise>)
    ensures id.Some? ==> r.Keys == registry.Keys + {id.value} && r[id.value] == exercise
    ensures forall key :: key in registry && Some(key) != id ==> key in r && r[key] == registry[key]
    ensures id.None? ==> r == registry
  {
    if id.Some? then registry[id.value := exercise] else registry
  }

  /** `_excercises.get(id)`: the stored exercise, or nothing. */
  function Lookup(registry: map<string, Exercise>, id: string): (r: Option<Exercise>)
    ensures r.Some? <==> id in registry
    ensures r.Some? ==> r.value == registry[id]
  {
    if id in registry then Some(registry[id]) else None
  }

  predicate ValidPositions(todo: seq<nat>, n: nat) {
    forall k :: 0 <= k < |todo| ==> todo[k] < n
  }

  /**
   * The loop of `init` over the slide positions `todo`: each slide is
   * resolved; an unsupported type stops the pass with the deck and the
   * registry as they are; otherwise the slide is materialised and its
   * exercise registered under its id, if it declares one.
   */
  function Process(slides: seq<Slide>, registry: map<string, Exercise>, todo: seq<nat>): (r: Run)
    requires ValidPositions(todo, |slides|)
    ensures |r.slides| == |slides|
    decreases |todo|
  {
    if todo == [] then Run(slides, registry, Completed)
    else
      var i := todo[0];
      var d := Declare(slides[i].markup);
      match ParseLanguage(d.exerciseType)
      case None => Run(slides, registry, Thrown(UnsupportedMessage(d.exerciseType)))
      case Some(language) =>
        Process(slides[i := Materialize(slides[i], d)], Register(registry, d.id, Construct(language, i, d)), todo[1..])
  }

  /** One iteration of the loop, for a slide whose type is supported. */
  lemma ProcessStep(slides: seq<Slide>, registry: map<string, Exercise>, todo: seq<nat>)
    requires ValidPositions(todo, |slides|) && todo != []
    requires ParseLanguage(Declare(slides[todo[0]].markup).exerciseType).Some?
    ensures var i := todo[0];
      var d := Declare(slides[i].markup);
      Process(slides, registry, todo)
      == Process(slides[i := Materialize(slides[i], d)], Register(registry, d.id, Construct(Html, i, d)), todo[1..])
  {
  }

  /** A whole initialisation pass over the deck. */
  function Initialize(slides: seq<Slide>, registry: map<string, Exercise>): Run {
    Process(slides, registry, ExerciseSlides(slides))
  }

  /**
   * The body of the loop after the type check: the container's children,
   * appended in the order the source appends them, and the exercise the
   * `switch` on the resolved type constructs (with the preview frame when
   * preview is on).
   */
  method BuildExercise(i: nat, declaration: Declaration, language: SupportedLanguage)
    returns (parts: seq<Part>, exercise: Exercise)
    ensures parts == ContainerParts(declaration)
    ensures exercise == Construct(language, i, declaration)
  {
    parts := [];
    if declaration.title.Some? {
      parts := parts + [Title(declaration.title.value)];
    }
    parts := parts + [EditorMount];
    match language {
      case Html =>
        if declaration.preview {
          parts := parts + [PreviewFrame];
          exercise := HtmlExercise(i, declaration.content, true);
        } else {
          exercise := HtmlExercise(i, declaration.content, false);
        }
    }
    parts := parts + [HintsPanel];
    if declaration.customContent.Some? {
      parts := parts + [CustomContent(declaration.customContent.value)];
    }
  }

  class RevealCodeExercisePlugin {
    const id: string
    var exercises: map<string, Exercise>

    constructor ()
      ensures id == "RevealCodeExercisePlugin" && exercises == map[]
    {
      id := "RevealCodeExercisePlugin";
      exercises := map[];
    }

    /**
     * `init`: the deck is the array `reveal.getSlides()` returns; each
     * exercise slide is replaced, in place, by the slide with the new
     * container as its only child.
     */
    method Init(deck: array<Slide>) returns (outcome: InitOutcome)
      modifies this, deck
      ensures Run(deck[..], exercises, outcome) == Initialize(old(deck[..]), old(exercises))
    {
      var exerciseSlides := ExerciseSlides(deck[..]);
      ghost var slides0, registry0 := deck[..], exercises;
      for k := 0 to |exerciseSlides|
        invariant Process(deck[..], exercises, exerciseSlides[k..]) == Process(slides0, registry0, exerciseSlides)
      {
        var i := exerciseSlides[k];
        var slide := deck[i];
        var declaration := Declare(slide.markup);
        var language := ParseLanguage(declaration.exerciseType);
        if language.None? {
          return Thrown(UnsupportedMessage(declaration.exerciseType));
        }

        ProcessStep(deck[..], exercises, exerciseSlides[k..]);
        var parts, exercise := BuildExercise(i, declaration, language.value);
        if declaration.id.Some? {
          exercises := exercises[declaration.id.value := exercise];
        }
        deck[i] := Slide(slide.markup.(content := None), [Container(parts)]);
      }
      outcome := Completed;
    }

    /** `getExercise`: never fails; absent ids give nothing. */
    method GetExercise(exerciseId: string) returns (r: Option<Exercise>)
      ensures r.Some? <==> exerciseId in exercises
      ensures r.Some? ==> r.value == exercises[exerciseId]
    {
      if exerciseId in exercises {
        r := Some(exercises[exerciseId]);
      } else {
        r := None;
      }
    }
  }
}
