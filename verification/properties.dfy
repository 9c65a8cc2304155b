/**
 * What one initialisation pass does to the deck and to the registry,
 * stated against the slides' own markup: where the pass stops, which slides
 * are materialised, and which exercise each id ends up with.
 */
module InitProperties {
  import opened Wrappers
  import opened Slides
  import opened Plugin

  function Markups(slides: seq<Slide>): (ms: seq<Markup>)
    ensures |ms| == |slides|
    ensures forall j :: 0 <= j < |slides| ==> ms[j] == slides[j].markup
  {
    seq(|slides|, j requires 0 <= j < |slides| => slides[j].markup)
  }

  predicate Supported(m: Markup) {
    IsSupportedLanguage(ResolvedType(m))
  }

  predicate DeclaresId(m: Markup, id: string) {
    DatasetValue(m, IdKey) == Some(id)
  }

  /** The exercise built for the slide at position `j` with markup `m`. */
  function ExerciseFor(m: Markup, j: nat): Exercise {
    Construct(Html, j, Declare(m))
  }

  /* ---- the general loop, over any list of positions ---- */

  /** The position in `todo` of the first slide whose type is not supported, or `|todo|`. */
  function FailurePos(ms: seq<Markup>, todo: seq<nat>): (p: nat)
    requires ValidPositions(todo, |ms|)
    ensures p <= |todo|
  {
    if todo == [] then 0
    else if !Supported(ms[todo[0]]) then 0
    else 1 + FailurePos(ms, todo[1..])
  }

  /** The loop gets through every slide before that position, and not through the one at it. */
  lemma {:induction false} FailurePosIsFirst(ms: seq<Markup>, todo: seq<nat>)
    requires ValidPositions(todo, |ms|)
    ensures forall q :: 0 <= q < FailurePos(ms, todo) ==> Supported(ms[todo[q]])
    ensures FailurePos(ms, todo) < |todo| ==> !Supported(ms[todo[FailurePos(ms, todo)]])
  {
    if todo != [] && Supported(ms[todo[0]]) {
      FailurePosIsFirst(ms, todo[1..]);
    }
  }

  /** The last position in `done` whose slide declares `id`. */
  function LastDeclaring(ms: seq<Markup>, done: seq<nat>, id: string): (r: Option<nat>)
    requires ValidPositions(done, |ms|)
    ensures r.Some? ==> r.value < |ms| && r.value in done
  {
    if done == [] then None
    else
      var j := done[|done| - 1];
      if DeclaresId(ms[j], id) then Some(j)
      else LastDeclaring(ms, done[..|done| - 1], id)
  }

  /** What a lookup of `id` gives after the slides at `done` were registered into `registry`. */
  function Expected(ms: seq<Markup>, registry: map<string, Exercise>, done: seq<nat>, id: string): Option<Exercise>
    requires ValidPositions(done, |ms|)
  {
    match LastDeclaring(ms, done, id)
    case Some(j) => Some(ExerciseFor(ms[j], j))
    case None => Lookup(registry, id)
  }

  lemma {:induction false} LastDeclaringCons(ms: seq<Markup>, i: nat, rest: seq<nat>, id: string)
    requires i < |ms| && ValidPositions(rest, |ms|)
    ensures LastDeclaring(ms, [i] + rest, id) ==
      if LastDeclaring(ms, rest, id).Some? then LastDeclaring(ms, rest, id)
      else if DeclaresId(ms[i], id) then Some(i) else None
    decreases |rest|
  {
    var all := [i] + rest;
    if rest != [] {
      assert all[..|all| - 1] == [i] + rest[..|rest| - 1];
      LastDeclaringCons(ms, i, rest[..|rest| - 1], id);
    }
  }

  /** Positions in deck order, each once, as the filter yields them. */
  predicate Increasing(todo: seq<nat>) {
    forall k, l :: 0 <= k < l < |todo| ==> todo[k] < todo[l]
  }

  /** Two views of the deck that read the same markup at every position in `todo`. */
  predicate AgreeOn(ms: seq<Markup>, ms': seq<Markup>, todo: seq<nat>) {
    |ms'| == |ms| && forall k :: 0 <= k < |todo| && todo[k] < |ms| ==> ms'[todo[k]] == ms[todo[k]]
  }

  /** Where the loop stops depends only on the markup at the positions it visits. */
  lemma {:induction false} FailurePosFrame(ms: seq<Markup>, ms': seq<Markup>, todo: seq<nat>)
    requires ValidPositions(todo, |ms|) && AgreeOn(ms, ms', todo)
    ensures FailurePos(ms', todo) == FailurePos(ms, todo)
    decreases |todo|
  {
    if todo != [] {
      assert ms'[todo[0]] == ms[todo[0]];
      FailurePosFrame(ms, ms', todo[1..]);
    }
  }

  /** Which slide last declares an id depends only on the markup at the positions in `done`. */
  lemma {:induction false} LastDeclaringFrame(ms: seq<Markup>, ms': seq<Markup>, done: seq<nat>, id: string)
    requires ValidPositions(done, |ms|) && AgreeOn(ms, ms', done)
    ensures LastDeclaring(ms', done, id) == LastDeclaring(ms, done, id)
    decreases |done|
  {
    if done != [] {
      assert ms'[done[|done| - 1]] == ms[done[|done| - 1]];
      LastDeclaringFrame(ms, ms', done[..|done| - 1], id);
    }
  }

  lemma ExpectedFrame(ms: seq<Markup>, ms': seq<Markup>, registry: map<string, Exercise>, done: seq<nat>, id: string)
    requires ValidPositions(done, |ms|) && AgreeOn(ms, ms', done)
    ensures Expected(ms', registry, done, id) == Expected(ms, registry, done, id)
  {
    LastDeclaringFrame(ms, ms', done, id);
    var r := LastDeclaring(ms, done, id);
    if r.Some? {
      var k :| 0 <= k < |done| && done[k] == r.value;
      assert ms'[done[k]] == ms[done[k]];
    }
  }

  /**
   * One step of the loop changes only the slide it visits, which the rest of
   * an increasing list of positions does not visit again.
   */
  lemma StepKeepsLaterMarkups(slides: seq<Slide>, todo: seq<nat>, s: Slide)
    requires ValidPositions(todo, |slides|) && Increasing(todo) && todo != []
    ensures Increasing(todo[1..])
    ensures AgreeOn(Markups(slides), Markups(slides[todo[0] := s]), todo[1..])
  {
    var ms, ms' := Markups(slides), Markups(slides[todo[0] := s]);
    forall k | 0 <= k < |todo[1..]| && todo[1..][k] < |ms|
      ensures ms'[todo[1..][k]] == ms[todo[1..][k]]
    {
      assert todo[1..][k] == todo[k + 1] > todo[0];
    }
  }

  /** An increasing list of positions does not come back to its first one. */
  lemma FirstNotRevisited(todo: seq<nat>, c: nat)
    requires Increasing(todo) && todo != [] && c < |todo|
    ensures todo[0] !in todo[1..][..c]
  {
    var done := todo[1..][..c];
    forall k | 0 <= k < |done|
      ensures done[k] != todo[0]
    {
      assert done[k] == todo[k + 1];
    }
  }

  /** Agreement on a list carries over to any prefix of it. */
  lemma AgreeOnPrefix(ms: seq<Markup>, ms': seq<Markup>, todo: seq<nat>, c: nat)
    requires AgreeOn(ms, ms', todo) && c <= |todo|
    ensures AgreeOn(ms, ms', todo[..c])
  {
    forall k | 0 <= k < c && todo[..c][k] < |ms|
      ensures ms'[todo[..c][k]] == ms[todo[..c][k]]
    {
      assert todo[..c][k] == todo[k];
    }
  }

  /**
   * The loop over any list of positions stops at the first slide whose type
   * is unsupported, throwing that type's message, and otherwise completes.
   */
  lemma {:induction false} ProcessOutcome(slides: seq<Slide>, registry: map<string, Exercise>, todo: seq<nat>)
    requires ValidPositions(todo, |slides|) && Increasing(todo)
    ensures var ms := Markups(slides);
      var c := FailurePos(ms, todo);
      Process(slides, registry, todo).outcome ==
        if c < |todo| then Thrown(UnsupportedMessage(ResolvedType(ms[todo[c]]))) else Completed
    decreases |todo|
  {
    if todo != [] {
      var i := todo[0];
      var d := Declare(slides[i].markup);
      if ParseLanguage(d.exerciseType).Some? {
        var slides' := slides[i := Materialize(slides[i], d)];
        var ms, ms' := Markups(slides), Markups(slides');
        StepKeepsLaterMarkups(slides, todo, Materialize(slides[i], d));
        FailurePosFrame(ms, ms', todo[1..]);
        ProcessOutcome(slides', Register(registry, d.id, Construct(Html, i, d)), todo[1..]);
        var c' := FailurePos(ms, todo[1..]);
        if c' < |todo[1..]| {
          assert ms'[todo[1..][c']] == ms[todo[1..][c']];
        }
      }
    }
  }

  /**
   * The loop materialises the slides it gets through before it stops, and
   * leaves every other slide as it was.
   */
  lemma {:induction false} ProcessSlides(slides: seq<Slide>, registry: map<string, Exercise>, todo: seq<nat>)
    requires ValidPositions(todo, |slides|) && Increasing(todo)
    ensures var r := Process(slides, registry, todo);
      var c := FailurePos(Markups(slides), todo);
      forall j :: 0 <= j < |slides| ==> r.slides[j] == if j in todo[..c] then Materialized(slides[j]) else slides[j]
    decreases |todo|
  {
    if todo != [] {
      var i := todo[0];
      var d := Declare(slides[i].markup);
      if ParseLanguage(d.exerciseType).Some? {
        var slides' := slides[i := Materialize(slides[i], d)];
        var ms, ms' := Markups(slides), Markups(slides');
        StepKeepsLaterMarkups(slides, todo, Materialize(slides[i], d));
        FailurePosFrame(ms, ms', todo[1..]);
        var registry' := Register(registry, d.id, Construct(Html, i, d));
        ProcessSlides(slides', registry', todo[1..]);
        var r := Process(slides', registry', todo[1..]);
        var done := todo[1..][..FailurePos(ms, todo[1..])];
        FailurePosStep(ms, todo);
        FirstNotRevisited(todo, FailurePos(ms, todo[1..]));
        forall j | 0 <= j < |slides|
          ensures r.slides[j] == if j in [i] + done then Materialized(slides[j]) else slides[j]
        {
          if j != i {
            assert slides'[j] == slides[j];
          }
        }
      }
    }
  }

  /** When the first slide's type is supported, the loop gets through it and then through the rest. */
  lemma FailurePosStep(ms: seq<Markup>, todo: seq<nat>)
    requires ValidPositions(todo, |ms|) && todo != [] && Supported(ms[todo[0]])
    ensures todo[..FailurePos(ms, todo)] == [todo[0]] + todo[1..][..FailurePos(ms, todo[1..])]
  {
    var c' := FailurePos(ms, todo[1..]);
    assert FailurePos(ms, todo) == 1 + c';
    PrefixOfTail(todo, 1 + c');
  }

  lemma PrefixOfTail(s: seq<nat>, n: nat)
    requires 0 < n <= |s|
    ensures s[..n] == [s[0]] + s[1..][..n - 1]
  {
  }

  /** The lookup of `id` after one registration. */
  lemma LookupAfterRegister(registry: map<string, Exercise>, m: Markup, i: nat, id: string)
    ensures Lookup(Register(registry, Declare(m).id, Construct(Html, i, Declare(m))), id) ==
      if DeclaresId(m, id) then Some(ExerciseFor(m, i)) else Lookup(registry, id)
  {
  }

  /**
   * A lookup of `id` after the loop gives the exercise of the last slide the
   * loop got through that declares `id`, and what it gave before when there
   * is no such slide.
   */
  lemma {:induction false} ProcessRegistry(slides: seq<Slide>, registry: map<string, Exercise>, todo: seq<nat>, id: string)
    requires ValidPositions(todo, |slides|) && Increasing(todo)
    ensures var ms := Markups(slides);
      Lookup(Process(slides, registry, todo).registry, id) == Expected(ms, registry, todo[..FailurePos(ms, todo)], id)
    decreases |todo|
  {
    var ms := Markups(slides);
    if todo != [] {
      var i := todo[0];
      var d := Declare(slides[i].markup);
      if ParseLanguage(d.exerciseType).Some? {
        var slides' := slides[i := Materialize(slides[i], d)];
        var registry' := Register(registry, d.id, Construct(Html, i, d));
        var ms' := Markups(slides');
        StepKeepsLaterMarkups(slides, todo, Materialize(slides[i], d));
        FailurePosFrame(ms, ms', todo[1..]);
        ProcessRegistry(slides', registry', todo[1..], id);
        var c' := FailurePos(ms, todo[1..]);
        AgreeOnPrefix(ms, ms', todo[1..], c');
        ExpectedFrame(ms, ms', registry', todo[1..][..c'], id);
        FailurePosStep(ms, todo);
        LastDeclaringCons(ms, i, todo[1..][..FailurePos(ms, todo[1..])], id);
        LookupAfterRegister(registry, ms[i], i, id);
      }
    }
  }

  /* ---- the pass over the whole deck ---- */

  /** The filter yields the exercise slides' positions in increasing order. */
  lemma ExerciseSlidesIncreasing(slides: seq<Slide>)
    ensures ValidPositions(ExerciseSlides(slides), |slides|) && Increasing(ExerciseSlides(slides))
  {
    QualifyingBelowSpec(slides, |slides|);
  }

  /** A slide that declares an exercise of a type outside the allow-list. */
  predicate Rejected(s: Slide) {
    Qualifies(s) && !Supported(s.markup)
  }

  /** The position of the first rejected slide of the deck, or the deck's length. */
  function FirstRejected(slides: seq<Slide>): (f: nat)
    ensures f <= |slides|
    ensures forall j :: 0 <= j < f ==> !Rejected(slides[j])
    ensures f < |slides| ==> Rejected(slides[f])
  {
    if slides == [] then 0
    else if Rejected(slides[0]) then 0
    else 1 + FirstRejected(slides[1..])
  }

  /** The last position below `n` of an exercise slide declaring `id`. */
  function LatestDeclaring(slides: seq<Slide>, n: nat, id: string): (r: Option<nat>)
    requires n <= |slides|
    ensures r.Some? ==> r.value < n && Qualifies(slides[r.value]) && DeclaresId(slides[r.value].markup, id)
    ensures r.Some? ==> forall j :: r.value < j < n && Qualifies(slides[j]) ==> !DeclaresId(slides[j].markup, id)
    ensures r.None? ==> forall j :: 0 <= j < n && Qualifies(slides[j]) ==> !DeclaresId(slides[j].markup, id)
  {
    if n == 0 then None
    else if Qualifies(slides[n - 1]) && DeclaresId(slides[n - 1].markup, id) then Some(n - 1)
    else LatestDeclaring(slides, n - 1, id)
  }

  /** The positions below `m` are a prefix of those below any larger bound. */
  lemma {:induction false} QualifyingBelowPrefix(slides: seq<Slide>, m: nat, n: nat)
    requires m <= n <= |slides|
    ensures |QualifyingBelow(slides, m)| <= |QualifyingBelow(slides, n)|
    ensures QualifyingBelow(slides, n)[..|QualifyingBelow(slides, m)|] == QualifyingBelow(slides, m)
    decreases n - m
  {
    if m < n {
      QualifyingBelowPrefix(slides, m, n - 1);
      var a, b := QualifyingBelow(slides, n - 1), QualifyingBelow(slides, n);
      assert b[..|a|] == a;
    }
  }

  /** The processed part of the filtered list is the list of exercise slides before the cut. */
  lemma ProcessedPrefix(slides: seq<Slide>, c: nat)
    requires c < |ExerciseSlides(slides)|
    ensures ExerciseSlides(slides)[..c] == QualifyingBelow(slides, ExerciseSlides(slides)[c])
  {
    var todo := ExerciseSlides(slides);
    QualifyingBelowSpec(slides, |slides|);
    var cut := todo[c];
    var below := QualifyingBelow(slides, cut);
    QualifyingBelowPrefix(slides, cut + 1, |slides|);
    assert QualifyingBelow(slides, cut + 1) == below + [cut];
    QualifyingBelowPrefix(slides, cut, cut + 1);
    assert todo[|below|] == cut;
    SamePositionInIncreasing(todo, |below|, c);
  }

  lemma OrderInIncreasing(s: seq<nat>, a: nat, b: nat)
    requires forall k, l :: 0 <= k < l < |s| ==> s[k] < s[l]
    requires a < |s| && b < |s| && s[a] < s[b]
    ensures a < b
  {
  }

  lemma SamePositionInIncreasing(s: seq<nat>, a: nat, b: nat)
    requires forall k, l :: 0 <= k < l < |s| ==> s[k] < s[l]
    requires a < |s| && b < |s| && s[a] == s[b]
    ensures a == b
  {
  }

  lemma {:induction false} LastDeclaringBelow(slides: seq<Slide>, n: nat, id: string)
    requires n <= |slides|
    ensures LastDeclaring(Markups(slides), QualifyingBelow(slides, n), id) == LatestDeclaring(slides, n, id)
  {
    if n > 0 {
      LastDeclaringBelow(slides, n - 1, id);
      var prev, all := QualifyingBelow(slides, n - 1), QualifyingBelow(slides, n);
      if Qualifies(slides[n - 1]) {
        assert all == prev + [n - 1];
        assert all[..|all| - 1] == prev;
      } else {
        assert all == prev;
      }
    }
  }

  /** An exercise slide before the cut is one the loop got through, so its type is supported. */
  lemma SupportedBeforeCut(slides: seq<Slide>, j: nat)
    requires j < |slides| && Qualifies(slides[j])
    requires var todo := ExerciseSlides(slides);
      var c := FailurePos(Markups(slides), todo);
      c < |todo| ==> j < todo[c]
    ensures Supported(slides[j].markup)
  {
    var todo := ExerciseSlides(slides);
    var c := FailurePos(Markups(slides), todo);
    QualifyingBelowSpec(slides, |slides|);
    FailurePosIsFirst(Markups(slides), todo);
    var q :| 0 <= q < |todo| && todo[q] == j;
    if c < |todo| {
      OrderInIncreasing(todo, q, c);
    }
    assert Supported(Markups(slides)[todo[q]]);
  }

  /** The pass stops exactly at the first rejected slide of the deck. */
  lemma StopsAtFirstRejected(slides: seq<Slide>)
    ensures var todo := ExerciseSlides(slides);
      var c := FailurePos(Markups(slides), todo);
      FirstRejected(slides) == if c < |todo| then todo[c] else |slides|
  {
    var todo := ExerciseSlides(slides);
    var c := FailurePos(Markups(slides), todo);
    var f := FirstRejected(slides);
    if f < (if c < |todo| then todo[c] else |slides|) {
      SupportedBeforeCut(slides, f);
    }
    if c < |todo| {
      QualifyingBelowSpec(slides, |slides|);
      FailurePosIsFirst(Markups(slides), todo);
      assert Rejected(slides[todo[c]]);
    }
  }

  /**
   * `init` throws iff some exercise slide has an unsupported type, and then
   * with the message for the first such slide.
   */
  lemma InitializeOutcome(slides: seq<Slide>, registry: map<string, Exercise>)
    ensures var f := FirstRejected(slides);
      Initialize(slides, registry).outcome ==
        if f < |slides| then Thrown(UnsupportedMessage(ResolvedType(slides[f].markup))) else Completed
  {
    ExerciseSlidesIncreasing(slides);
    ProcessOutcome(slides, registry, ExerciseSlides(slides));
    StopsAtFirstRejected(slides);
  }

  /** The processed part of the filtered list holds the exercise slides before the first rejected one. */
  lemma ProcessedBeforeCut(slides: seq<Slide>)
    ensures var todo := ExerciseSlides(slides);
      todo[..FailurePos(Markups(slides), todo)] == QualifyingBelow(slides, FirstRejected(slides))
  {
    var todo := ExerciseSlides(slides);
    var c := FailurePos(Markups(slides), todo);
    StopsAtFirstRejected(slides);
    if c < |todo| {
      ProcessedPrefix(slides, c);
    }
  }

  /**
   * After `init`, the exercise slides before the first rejected one are
   * materialised; that slide, the slides after it and the slides without
   * the marker key keep their children.
   */
  lemma InitializeSlides(slides: seq<Slide>, registry: map<string, Exercise>)
    ensures var r := Initialize(slides, registry);
      var f := FirstRejected(slides);
      && |r.slides| == |slides|
      && forall j :: 0 <= j < |slides| ==>
           r.slides[j] == if j < f && Qualifies(slides[j]) then Materialized(slides[j]) else slides[j]
  {
    var f := FirstRejected(slides);
    ExerciseSlidesIncreasing(slides);
    ProcessSlides(slides, registry, ExerciseSlides(slides));
    ProcessedBeforeCut(slides);
    QualifyingBelowSpec(slides, f);
  }

  /**
   * After `init`, each id maps to the exercise of the last exercise slide
   * before the first rejected one that declares it; lookups of every other
   * id give what they gave before.
   */
  lemma InitializeRegistry(slides: seq<Slide>, registry: map<string, Exercise>)
    ensures var r := Initialize(slides, registry);
      var f := FirstRejected(slides);
      forall id :: Lookup(r.registry, id) ==
        match LatestDeclaring(slides, f, id)
        case Some(j) => Some(ExerciseFor(slides[j].markup, j))
        case None => Lookup(registry, id)
  {
    var f := FirstRejected(slides);
    var r := Initialize(slides, registry);
    ProcessedBeforeCut(slides);
    ExerciseSlidesIncreasing(slides);
    forall id
      ensures Lookup(r.registry, id) ==
        match LatestDeclaring(slides, f, id)
        case Some(j) => Some(ExerciseFor(slides[j].markup, j))
        case None => Lookup(registry, id)
    {
      ProcessRegistry(slides, registry, ExerciseSlides(slides), id);
      LastDeclaringBelow(slides, f, id);
    }
  }

  /* ---- consequences ---- */

  /**
   * Fail-fast: when an exercise slide has an unsupported type, `init` throws
   * for the first such slide, that slide and every later slide keep their
   * children, and the exercise slides before it stay materialised.
   */
  lemma UnsupportedTypeFailsFast(slides: seq<Slide>, registry: map<string, Exercise>, k: nat)
    requires k < |slides| && Rejected(slides[k])
    ensures var r := Initialize(slides, registry);
      var f := FirstRejected(slides);
      && f <= k
      && r.outcome == Thrown(UnsupportedMessage(ResolvedType(slides[f].markup)))
      && (forall j :: f <= j < |slides| ==> r.slides[j] == slides[j])
      && (forall j :: 0 <= j < f && Qualifies(slides[j]) ==> r.slides[j] == Materialized(slides[j]))
  {
    InitializeOutcome(slides, registry);
    InitializeSlides(slides, registry);
  }

  /** Without an unsupported type, `init` completes and materialises every exercise slide. */
  lemma AllSupportedCompletes(slides: seq<Slide>, registry: map<string, Exercise>)
    requires forall j :: 0 <= j < |slides| ==> !Rejected(slides[j])
    ensures var r := Initialize(slides, registry);
      && r.outcome == Completed
      && forall j :: 0 <= j < |slides| ==>
           r.slides[j] == if Qualifies(slides[j]) then Materialized(slides[j]) else slides[j]
  {
    InitializeOutcome(slides, registry);
    InitializeSlides(slides, registry);
  }

  /**
   * An id ends up in the registry iff it was there before or some exercise
   * slide that `init` got through declares it; the empty string counts as
   * a declared id.
   */
  lemma RegisteredIffDeclared(slides: seq<Slide>, registry: map<string, Exercise>, id: string)
    ensures var r := Initialize(slides, registry);
      var f := FirstRejected(slides);
      id in r.registry <==>
        id in registry || exists j :: 0 <= j < f && Qualifies(slides[j]) && DeclaresId(slides[j].markup, id)
  {
    InitializeRegistry(slides, registry);
    var f := FirstRejected(slides);
    if LatestDeclaring(slides, f, id).Some? {
      var j := LatestDeclaring(slides, f, id).value;
      assert 0 <= j < f && Qualifies(slides[j]) && DeclaresId(slides[j].markup, id);
    }
  }

  /** When two exercise slides declare the same id, the earlier one's exercise is no longer reachable. */
  lemma ReusedIdKeepsLater(slides: seq<Slide>, registry: map<string, Exercise>, id: string, early: nat, late: nat)
    requires early < late < FirstRejected(slides)
    requires Qualifies(slides[early]) && DeclaresId(slides[early].markup, id)
    requires Qualifies(slides[late]) && DeclaresId(slides[late].markup, id)
    ensures var r := Initialize(slides, registry);
      id in r.registry && r.registry[id].slide >= late
  {
    var f := FirstRejected(slides);
    InitializeRegistry(slides, registry);
    var latest := LatestDeclaring(slides, f, id);
    assert latest.Some? && latest.value >= late;
    assert ExerciseFor(slides[latest.value].markup, latest.value).slide == latest.value;
  }

  /* ---- a second pass ---- */

  /** `after` is `before` with some slides materialised, as a pass leaves it. */
  predicate PassedOver(before: seq<Slide>, after: seq<Slide>) {
    |after| == |before| &&
    forall j :: 0 <= j < |before| ==> after[j] == before[j] || after[j] == Materialized(before[j])
  }

  /** A completed or stopped pass leaves the deck passed over. */
  lemma InitializePassesOver(slides: seq<Slide>, registry: map<string, Exercise>)
    ensures PassedOver(slides, Initialize(slides, registry).slides)
  {
    InitializeSlides(slides, registry);
  }

  /** Materialising keeps the dataset, so every decision made from the dataset is the same. */
  lemma PassedOverSameDataset(before: seq<Slide>, after: seq<Slide>, j: nat)
    requires PassedOver(before, after) && j < |before|
    ensures after[j].markup.dataset == before[j].markup.dataset
    ensures Qualifies(after[j]) == Qualifies(before[j]) && Rejected(after[j]) == Rejected(before[j])
    ensures forall id :: DeclaresId(after[j].markup, id) == DeclaresId(before[j].markup, id)
  {
    MaterializeDropsContent(before[j], Declare(before[j].markup));
  }

  lemma {:induction false} LatestDeclaringPassedOver(before: seq<Slide>, after: seq<Slide>, n: nat, id: string)
    requires PassedOver(before, after) && n <= |before|
    ensures LatestDeclaring(after, n, id) == LatestDeclaring(before, n, id)
  {
    if n > 0 {
      PassedOverSameDataset(before, after, n - 1);
      LatestDeclaringPassedOver(before, after, n - 1, id);
    }
  }

  lemma FirstRejectedPassedOver(before: seq<Slide>, after: seq<Slide>)
    requires PassedOver(before, after)
    ensures FirstRejected(after) == FirstRejected(before)
  {
    forall j | 0 <= j < |before|
      ensures Rejected(after[j]) == Rejected(before[j])
    {
      PassedOverSameDataset(before, after, j);
    }
  }

  /**
   * Calling `init` a second time on a deck the first call got through maps
   * each declared id to the exercise of the same slide, built from the
   * declaration read again: the content element is gone, so its content is
   * empty.
   */
  lemma ReinitializeEmptiesContent(slides: seq<Slide>, registry: map<string, Exercise>, id: string)
    requires FirstRejected(slides) == |slides|
    ensures var first := Initialize(slides, registry);
      var second := Initialize(first.slides, first.registry);
      match LatestDeclaring(slides, |slides|, id)
      case Some(j) => Lookup(second.registry, id) == Some(HtmlExercise(j, "", ResolvedPreview(slides[j].markup)))
      case None => Lookup(second.registry, id) == Lookup(registry, id)
  {
    var first := Initialize(slides, registry);
    InitializePassesOver(slides, registry);
    FirstRejectedPassedOver(slides, first.slides);
    LatestDeclaringPassedOver(slides, first.slides, |slides|, id);
    InitializeRegistry(slides, registry);
    InitializeRegistry(first.slides, first.registry);
    var latest := LatestDeclaring(slides, |slides|, id);
    if latest.Some? {
      var j := latest.value;
      InitializeSlides(slides, registry);
      MaterializeDropsContent(slides[j], Declare(slides[j].markup));
    }
  }

  /**
   * An example deck of three exercise slides: the first declares the id
   * "ex1", preview "true" and content starting with a newline; the second
   * declares nothing but the marker; the third declares preview "false".
   * The slides' own children do not matter.
   */
  const FirstMarkup := Markup(map["codeExercise" := "", "codeExerciseId" := "ex1", "codeExercisePreview" := "true"],
                              Some("\nconsole.log(1)"), None)
  const SecondMarkup := Markup(map["codeExercise" := ""], None, None)
  const ThirdMarkup := Markup(map["codeExercise" := "", "codeExercisePreview" := "false"], None, None)

  predicate IsExampleDeck(deck: seq<Slide>) {
    |deck| == 3 && deck[0].markup == FirstMarkup && deck[1].markup == SecondMarkup && deck[2].markup == ThirdMarkup
  }

  /** What the plugin reads from each slide of the example deck. */
  lemma ExampleDeclarations()
    ensures Declare(FirstMarkup) == Declaration("console.log(1)", "html", Some("ex1"), None, true, None)
    ensures Declare(SecondMarkup) == Declaration("", "html", None, None, true, None)
    ensures Declare(ThirdMarkup) == Declaration("", "html", None, None, false, None)
    ensures Supported(FirstMarkup) && Supported(SecondMarkup) && Supported(ThirdMarkup)
  {
    assert TypeKey == "codeExerciseType" && IdKey == "codeExerciseId";
    assert TitleKey == "codeExerciseTitle" && PreviewKey == "codeExercisePreview";
    PreviewExamples();
  }

  /** Every slide of the example deck declares an exercise of the supported type. */
  lemma ExampleNoneRejected(deck: seq<Slide>)
    requires IsExampleDeck(deck)
    ensures forall j :: 0 <= j < |deck| ==> Qualifies(deck[j]) && !Rejected(deck[j])
  {
    ExampleDeclarations();
    assert Qualifies(deck[0]) && Supported(deck[0].markup);
    assert Qualifies(deck[1]) && Supported(deck[1].markup);
    assert Qualifies(deck[2]) && Supported(deck[2].markup);
  }

  /** Hence `init` completes on the example deck. */
  lemma ExampleCompletes(deck: seq<Slide>)
    requires IsExampleDeck(deck)
    ensures FirstRejected(deck) == |deck|
    ensures Initialize(deck, map[]).outcome == Completed
  {
    ExampleNoneRejected(deck);
    AllSupportedCompletes(deck, map[]);
  }

  /**
   * `init` on the example deck: the second slide gets a preview frame
   * because an undeclared preview defaults to "true"; the third gets none.
   */
  lemma ExampleSlides(deck: seq<Slide>)
    requires IsExampleDeck(deck)
    ensures var r := Initialize(deck, map[]);
      && r.slides[0].children == [Container([EditorMount, PreviewFrame, HintsPanel])]
      && r.slides[1].children == [Container([EditorMount, PreviewFrame, HintsPanel])]
      && r.slides[2].children == [Container([EditorMount, HintsPanel])]
  {
    ExampleDeclarations();
    ExampleCompletes(deck);
    InitializeSlides(deck, map[]);
    ContainerPartsWithoutOptions(Declare(FirstMarkup));
    ContainerPartsWithoutOptions(Declare(SecondMarkup));
    ContainerPartsWithoutOptions(Declare(ThirdMarkup));
    assert Qualifies(deck[0]) && Qualifies(deck[1]) && Qualifies(deck[2]);
  }

  /**
   * `init` on the example deck registers the first exercise only, with the
   * leading newline of its content removed.
   */
  lemma ExampleRegistry(deck: seq<Slide>)
    requires IsExampleDeck(deck)
    ensures var r := Initialize(deck, map[]);
      && Lookup(r.registry, "ex1") == Some(HtmlExercise(0, "console.log(1)", true))
      && r.registry.Keys == {"ex1"}
  {
    ExampleDeclarations();
    ExampleCompletes(deck);
    var r := Initialize(deck, map[]);
    InitializeRegistry(deck, map[]);
    assert LatestDeclaring(deck, 3, "ex1") == Some(0);
    forall id | id in r.registry
      ensures id == "ex1"
    {
      RegisteredIffDeclared(deck, map[], id);
    }
  }
}
