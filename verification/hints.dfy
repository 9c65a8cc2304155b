/**
 * The hints panel built for every exercise, and how it is re-rendered on
 * each validation event the exercise reports.
 */
module Hints {
  import opened Text

  const HeadingText := "Tipps zur Bearbeitung:"
  const StartMessage := "Beginnen Sie mit der Aufgabe!"
  const NoHintsYet := "Es gibt noch keine Hinweise."
  const SuccessMessage := "Gut gemacht! Alles richtig!"
  const ToggleLabel := "Hinweis umschalten"
  const CountPrefix := "Es gibt "
  const CountSuffix := " Hinweise."

  /** One list entry: a disclosure widget whose summary is the toggle label and whose body is the hint. */
  datatype Spoiler = Spoiler(summary: string, hint: string)

  /** What the panel's paragraph shows: a line of text, or a list of hints. */
  datatype Paragraph = Text(text: string) | HintList(items: seq<Spoiler>)

  function CreateSpoiler(hint: string): Spoiler {
    Spoiler(ToggleLabel, hint)
  }

  /** The screen-reader count, `Es gibt ${n} Hinweise.`. */
  function CountText(n: nat): string {
    CountPrefix + Decimal(n) + CountSuffix
  }

  /** The count text gives back the number of hints it was rendered from. */
  lemma CountTextInjective(a: nat, b: nat)
    requires CountText(a) == CountText(b)
    ensures a == b
  {
    var s, t := CountText(a), CountText(b);
    assert s[|CountPrefix|..|s| - |CountSuffix|] == Decimal(a);
    assert t[|CountPrefix|..|t| - |CountSuffix|] == Decimal(b);
    DecimalInjective(a, b);
  }

  /** The `forEach` that appends one spoiler per error to a fresh list, in order. */
  method BuildHintList(errors: seq<string>) returns (items: seq<Spoiler>)
    ensures |items| == |errors|
    ensures forall i :: 0 <= i < |errors| ==> items[i] == CreateSpoiler(errors[i])
  {
    items := [];
    var k := 0;
    while k < |errors|
      invariant 0 <= k <= |errors|
      invariant |items| == k
      invariant forall i :: 0 <= i < k ==> items[i] == CreateSpoiler(errors[i])
    {
      items := items + [CreateSpoiler(errors[k])];
      k := k + 1;
    }
  }

  /** The panel element: a heading, a paragraph and a live count. */
  class HintsPanel {
    const heading: string
    var paragraph: Paragraph
    var count: string

    constructor ()
      ensures heading == HeadingText
      ensures paragraph == Text(StartMessage) && count == NoHintsYet
    {
      heading := HeadingText;
      paragraph := Text(StartMessage);
      count := NoHintsYet;
    }

    /**
     * The validation handler. Every event overwrites the count and the
     * whole paragraph, so what the panel shows depends on this event only.
     */
    method OnValidate(valid: bool, errors: seq<string>)
      modifies this
      ensures count == CountText(|errors|)
      ensures valid ==> paragraph == Text(SuccessMessage)
      ensures !valid ==> paragraph.HintList? && |paragraph.items| == |errors|
      ensures !valid ==> forall i :: 0 <= i < |errors| ==> paragraph.items[i] == CreateSpoiler(errors[i])
    {
      count := CountPrefix + Decimal(|errors|) + CountSuffix;
      if valid {
        paragraph := Text(SuccessMessage);
      } else {
        var items := BuildHintList(errors);
        paragraph := HintList(items);
      }
    }
  }

  /** Two events in a row: the panel shows the second one only, whatever the first was. */
  method LastEventWins(panel: HintsPanel, valid1: bool, errors1: seq<string>, valid2: bool, errors2: seq<string>)
    modifies panel
    ensures panel.count == CountText(|errors2|)
    ensures panel.paragraph ==
      if valid2 then Text(SuccessMessage)
      else HintList(seq(|errors2|, i requires 0 <= i < |errors2| => CreateSpoiler(errors2[i])))
  {
    panel.OnValidate(valid1, errors1);
    panel.OnValidate(valid2, errors2);
  }
}
