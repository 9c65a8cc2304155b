# reveal-codeexercise-plugin, modelled in Dafny

This project models the core of a reveal.js plugin that turns slides into
interactive coding exercises. That core is `src/index.ts`.

At initialisation the plugin does the following:

- It selects every slide that carries the `codeExercise` dataset marker.
- It resolves each slide's declaration:
  - its content, with one leading newline removed;
  - its type, which defaults to `html` and must be on the allow-list;
  - its id and its title;
  - its preview flag, which defaults to `"true"` and is matched case-insensitively against `true`;
  - its custom-content node.
- It replaces the slide's children with one exercise container. The
  container holds an optional title, the editor mount, an optional preview
  frame, the hints panel and the relocated custom-content node, in that order.
- It records each exercise that declared an id in the plugin's registry.

An unsupported type throws `Unsupported exercise type: <type>` and stops
the pass at that slide. `getExercise(id)` looks an id up in the registry.
The hints panel is re-rendered on every validation event:

- the screen-reader count becomes `Es gibt <n> Hinweise.`;
- the paragraph becomes the success text or a list of hint spoilers.

Modules:

- `Wrappers`: `Option`.
- `Text`: strips one leading newline, decides the case-insensitive
  whole-string match of the preview regular expression, and renders a
  count in decimal digits.
- `Slides`: slides as values, constants, the allow-list, declaration
  resolution, the container layout and the qualifying-slide filter.
- `Hints`: the hints panel as a class, with the `onValidate` handler as a
  method.
- `Plugin`: the plugin as a class.
  - Its registry `exercises` is a `map` field.
  - `Init` walks the deck, an `array<Slide>`, and replaces each exercise
    slide in place.
  - `Init` runs its own `for` loop and is proved against the specification
    function `Initialize`. The loop invariant says that what remains of
    the recursive function `Process`, applied to the current deck and
    registry, gives the same result as `Process` on the initial ones. So
    the loop agrees with `Process` step by step.
- `InitProperties`: what a whole initialisation pass does, stated
  directly about the deck:
  - which outcome it has;
  - which slides change, and into what;
  - what the registry answers for every id;
  - plus an example deck.

A slide is a value `Slide(markup, children)`:

- `markup` is what the plugin reads from the slide's DOM:
  - the `dataset`;
  - the text of the `data-code-exercise-Content` descendant;
  - the `data-code-exercise-custom-content` descendant.
- `children` is what the plugin replaces.

Replacing the children removes the content element. A materialised slide
therefore has no content text, and a later `init` over the same deck reads
empty content for it (`InitProperties.ReinitializeEmptiesContent`). The
custom-content node moves into the container and stays a descendant of the
slide. The dataset is untouched.

An exercise object is the value `HtmlExercise(slide, content, preview)`.
Within one pass, its slide position stands for the object's identity.

## Model

| member | source | states |
|---|---|---|
| Text.RemoveLeadingNewline | src/index.ts:64 | the result differs from the input iff the input starts with a newline, and then it is the input minus exactly that one newline |
| Text.RemoveLeadingNewlineUndoesPrepend | src/index.ts:64 | stripping undoes prepending one newline, for every string |
| Text.RemoveLeadingNewlineRemovesOnlyOne | src/index.ts:64 | of two leading newlines only the first is removed |
| Text.MatchesIgnoringCaseIff | src/index.ts:93 | a whole-string case-insensitive match of a lower-case word accepts exactly the strings of the same length that have, at each position, the letter in either case |
| Text.Decimal | src/index.ts:47 | the rendering of a count is a non-empty string of digits; it starts with `0` iff the count is 0, and 0 renders as exactly `"0"`; it has one digit iff the count is below 10 |
| Text.DecimalRoundTrip | src/index.ts:47 | reading the rendered digits back gives the count |
| Slides.SupportedLanguageIsHtml | src/index.ts:7-11 | a type is on the allow-list iff it is exactly `html` |
| Slides.ParseLanguage | src/index.ts:10-11 | the type check succeeds iff the type is on the allow-list, and the language it yields has that name |
| Slides.ParseLanguageName | src/index.ts:7-8 | every supported language's name passes the check and yields that language back |
| Slides.DatasetValue | src/index.ts:84-92 | reading a dataset key gives a value iff the key is present, and then the stored value |
| Slides.PreviewEnabled | src/index.ts:92-93 | the preview is on iff the declared string has four characters and each is the letter of `true` in lower or upper case |
| Slides.PreviewExamples | src/index.ts:92-93 | `TRUE`, `True` and `true` enable the preview; `false`, the empty string and `yes` do not |
| Slides.ResolutionDefaults | src/index.ts:70-92 | an undeclared type is `html` and passes the check; an undeclared preview flag enables the preview; a missing content element gives empty content |
| Slides.ContainerPartsWithoutOptions | src/index.ts:101-128 | without a title or custom content the container is the editor, the preview frame if enabled, then the hints panel |
| Slides.ContainerOrder | src/index.ts:97-136 | the container's parts appear in the order title, editor, preview frame, hints panel, custom content, each kind at most once |
| Slides.ContainerContents | src/index.ts:97-136 | the container always holds the editor and the hints panel; it holds the title iff one was declared, the preview frame iff preview is on, and the custom-content node iff the slide had one |
| Slides.QualifyingBelowSpec | src/index.ts:78 | the filter yields, in deck order and without repetition, exactly the positions of slides whose dataset has the marker key, whatever its value |
| Slides.IsSupportedLanguage | src/index.ts:10-11 | the allow-list test; `Slides.SupportedLanguageIsHtml` states which types pass it |
| Slides.Qualifies | src/index.ts:78 | the filter's test, the presence of the marker key; `Slides.QualifyingBelowSpec` states the filter with it |
| Slides.ResolvedType | src/index.ts:84 | the declared type or `html`; `Slides.ResolutionDefaults` states the default |
| Slides.ResolvedContent | src/index.ts:81-82 | the content text or `""`, less one leading newline; `Slides.ResolutionDefaults` and `Text.RemoveLeadingNewline` state it |
| Slides.ResolvedPreview | src/index.ts:92-93 | the declared preview flag or `"true"`, decoded; `Slides.PreviewEnabled` and `Slides.ResolutionDefaults` state it |
| Slides.Declare | src/index.ts:81-95 | everything read from one slide before the container is built; the resolution lemmas above state its fields |
| Slides.ContainerParts | src/index.ts:97-136 | the container's children in append order; `Slides.ContainerOrder` and `Slides.ContainerContents` state its shape |
| Slides.Materialize | src/index.ts:99 | the slide with its children replaced by the container; `Slides.MaterializeDropsContent` states what stays |
| Slides.MaterializeDropsContent | src/index.ts:81-99 | a materialised slide keeps its dataset and still qualifies, and declares the same exercise except that its content is now empty |
| Slides.Construct | src/index.ts:112-125 | the exercise built for the one supported language; `Plugin.BuildExercise` states it is what the loop constructs |
| Slides.QualifyingBelow | src/index.ts:78 | the filter as positions, every one below the bound; `Slides.QualifyingBelowSpec` states the rest |
| Slides.ExerciseSlides | src/index.ts:78 | the filter over the whole deck; `InitProperties.ExerciseSlidesIncreasing` states its order |
| Text.MatchesIgnoringCase | src/index.ts:93 | the `/i` whole-string test; `Text.MatchesIgnoringCaseIff` states what it accepts |
| Hints.CreateSpoiler | src/index.ts:13-27 | one spoiler: the toggle label as summary and the hint as body; `Hints.BuildHintList` states the list built from it |
| Hints.CountText | src/index.ts:47 | the count message; `Hints.CountTextInjective` states that it determines the count |
| Hints.CountTextInjective | src/index.ts:47 | distinct hint counts give distinct count texts |
| Hints.BuildHintList | src/index.ts:52-56 | the list has one spoiler per error, in the errors' order, each with the toggle label as summary and the error as hint |
| Hints.HintsPanel.constructor | src/index.ts:29-44 | a fresh panel shows the heading, the start message and the no-hints count |
| Hints.HintsPanel.OnValidate | src/index.ts:46-58 | after an event the count names the number of errors; a valid event shows the success text; an invalid one shows the spoiler list for exactly its errors |
| Hints.LastEventWins | src/index.ts:46-58 | after two events, the count and the whole paragraph are those of the second event, whatever the first was |
| Plugin.Register | src/index.ts:130-132 | with an id, the registry gains that key bound to the new exercise and keeps every other binding; without one it is unchanged |
| Plugin.Lookup | src/index.ts:152-154 | a lookup gives an exercise iff the id is registered, and then the registered one |
| Plugin.UnsupportedMessage | src/index.ts:86 | the thrown message; `InitProperties.InitializeOutcome` states when it is thrown |
| Plugin.Initialize | src/index.ts:75-140 | one pass over the filtered deck; `InitProperties.InitializeOutcome`, `InitProperties.InitializeSlides` and `InitProperties.InitializeRegistry` state its result |
| Plugin.Process | src/index.ts:79-140 | the loop keeps the deck's length |
| Plugin.ProcessStep | src/index.ts:79-140 | one iteration over a supported slide materialises it, registers its exercise and continues with the rest |
| Plugin.BuildExercise | src/index.ts:97-136 | the parts appended are the container layout of the declaration, and the exercise constructed is the one for its resolved language, content and preview flag |
| Plugin.RevealCodeExercisePlugin.constructor | src/index.ts:66-73 | a new plugin has id `RevealCodeExercisePlugin` and an empty registry |
| Plugin.RevealCodeExercisePlugin.Init | src/index.ts:75-141 | the deck, the registry and the outcome after `init` are those of `Initialize` on the deck and the registry before it |
| Plugin.RevealCodeExercisePlugin.GetExercise | src/index.ts:152-154 | gives the registered exercise for a registered id and nothing otherwise |
| InitProperties.FailurePosIsFirst | src/index.ts:84-87 | every slide before the failure position passes the type check and the slide at it does not |
| InitProperties.ProcessOutcome | src/index.ts:79-87 | the loop over any increasing list of valid positions, as the filter yields, throws the message of the first unsupported type, and completes if there is none |
| InitProperties.ProcessSlides | src/index.ts:79-99 | the loop materialises exactly the slides it gets through before the failure position and leaves every other slide as it was |
| InitProperties.ProcessRegistry | src/index.ts:130-132 | after the loop, a lookup of any id gives the exercise of the last processed slide declaring it, or else the lookup before the loop |
| InitProperties.FirstRejected | src/index.ts:78-87 | the first exercise slide with an unsupported type: every slide before it is accepted and it is rejected |
| InitProperties.LatestDeclaring | src/index.ts:130-132 | the last exercise slide below a bound that declares an id: it declares the id and no later one before the bound does; none means no slide below the bound does |
| InitProperties.InitializeOutcome | src/index.ts:84-87 | `init` throws `Unsupported exercise type: <t>` for the first exercise slide with an unsupported type, and completes iff there is none |
| InitProperties.InitializeSlides | src/index.ts:78-99 | after `init`, each slide before the first rejected one is materialised if it declares an exercise; every other slide is unchanged |
| InitProperties.InitializeRegistry | src/index.ts:130-132 | after `init`, an id maps to the exercise of the last exercise slide before the first rejected one declaring it; ids no such slide declares keep their earlier entry |
| InitProperties.UnsupportedTypeFailsFast | src/index.ts:84-87 | a rejected slide makes `init` throw for the first one; that slide and every later one are unchanged, and earlier exercise slides stay materialised |
| InitProperties.AllSupportedCompletes | src/index.ts:78-140 | with no rejected slide, `init` completes and materialises every exercise slide and nothing else |
| InitProperties.RegisteredIffDeclared | src/index.ts:130-132 | an id is registered after `init` iff it was before or some exercise slide the pass got through declares it |
| InitProperties.ReusedIdKeepsLater | src/index.ts:130-132 | when two exercise slides declare the same id, the registry holds the exercise of a slide no earlier than the later one |
| InitProperties.ExerciseSlidesIncreasing | src/index.ts:78 | the filtered positions are valid and strictly increasing, so the loop visits each exercise slide once |
| InitProperties.FailurePosFrame | src/index.ts:79-87 | where the loop stops depends only on the markup of the slides it visits |
| InitProperties.StepKeepsLaterMarkups | src/index.ts:79-99 | replacing the visited slide leaves the markup of every slide still to be visited as it was |
| InitProperties.FirstRejectedPassedOver | src/index.ts:84-87 | a second pass stops at the same slide as the first, since materialising keeps the dataset |
| InitProperties.LatestDeclaringPassedOver | src/index.ts:89-132 | a second pass finds the same last declaring slide for every id |
| InitProperties.ReinitializeEmptiesContent | src/index.ts:75-132 | after a completed `init`, a second `init` maps each declared id to the exercise of the same slide with empty content and the same preview flag; other ids keep their original entry |
| InitProperties.ExampleCompletes | src/index.ts:75-141 | `init` completes on a three-slide example deck |
| InitProperties.ExampleSlides | src/index.ts:92-128 | in the example, an undeclared preview gets a preview frame and `false` gets none |
| InitProperties.ExampleRegistry | src/index.ts:78-132 | in the example, only `ex1` is registered, with its content's leading newline removed and its preview on |

## Left out

- The option parser and the three-tier option merger are not in `src/index.ts`.
  - `dist/types/index.d.ts:8-17` only declares their type.
  - `dataPrefix`, `dataSetPrefix`, `defaultExerciseType` and
    `defaultShowPreview` (src/index.ts:68-71) are public, writable fields.
    They are modelled as constants because nothing in the source writes
    them after construction. Only `id` (src/index.ts:67) is `readonly`.
  - No editor options are passed to the exercise.
- The `setTimeout` layout workaround (src/index.ts:138-139) is a timer call
  into the editor engine, so it is left out.
- `destroy` (src/index.ts:142-144) only throws "not implemented", so it is left out.
- `createEditableField` (src/index.ts:163-165) delegates to the external
  exercise engine, which is not part of this model.
- The `HtmlExcercise` constructor and its `onValidate` event source are not
  part of this model:
  - an exercise is the value of the arguments it is built from;
  - `HintsPanel.OnValidate` takes the event's `valid` and `errors` as parameters.
- The style import and the CSS classes are presentation only.
- DOM node identity is modelled only partly:
  - the title, editor, iframe and hints panel are tags in the container;
  - authored and custom-content nodes are opaque tokens;
  - moving the custom-content node out of its old place is the replacement of the slide's children.
- Plugin.RevealCodeExercisePlugin.Init: does not allocate a `HintsPanel` object
  for each exercise. The container holds a `HintsPanel` tag, and the panel's
  behaviour is modelled by `Hints.HintsPanel` on its own.
- Plugin.RevealCodeExercisePlugin.Init: the selected slides are positions in
  the deck rather than element references. The filter runs once, before the
  loop. The loop visits each position once, in increasing order. So each
  slide is read with the markup it had when the pass began.
- InitProperties.ReinitializeEmptiesContent: two passes over one slide can
  give equal exercise values where the source builds two distinct objects.
  This happens when the slide's content was already empty. An exercise's slide
  position stands for its identity only within one pass, and the model does
  not tell the objects of different passes apart.
- Slides.Materialize: always drops the content text. It does not model a
  content element nested inside the custom-content node. Such an element
  would move with that node and still be found by a later `init`.
- Text.MatchesIgnoringCaseIff: covers only lower-case ASCII words, the only
  case the source uses (`/^true$/i`). Without the `u` flag no other character
  folds onto an ASCII letter. JavaScript's `$` without the `m` flag does not
  match before a trailing newline, so `"true\n"` does not enable the preview.

Three behaviours of the code are worth stating outright:

- **The pass is not atomic.** An unsupported type throws in the middle of the
  loop (src/index.ts:85-87). Exercise slides before the rejected one stay
  materialised, and their ids stay registered
  (`InitProperties.UnsupportedTypeFailsFast`, `InitProperties.InitializeRegistry`).
- **An undeclared `Preview` turns the preview on.** The key defaults to
  `"true"` (src/index.ts:71,92), so a slide that declares no preview flag gets
  a preview frame. Only an explicit value other than `true` turns the preview off
  (`Slides.ResolutionDefaults`, `InitProperties.ExampleSlides`).
- **Custom content comes last.** It is appended after the hints panel
  (src/index.ts:127-136), as `Slides.ContainerOrder` states.
