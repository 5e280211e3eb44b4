/** When a typing receipt may say "verified": the poll loop that reads the focused field
  * and, now and then, the text below it, until something decides or time runs out.
  */
module TextReceipt {
  import opened Options
  import opened AccessibleText
  import opened DescendantWalk
  import Utf8
  import Insertion

  /** What was captured before typing. `input` is normalised. */
  datatype Receipt = Receipt(
    expected: string,
    input: string,
    blankLineReplacement: Option<string>,
    placeholderReplacement: Option<string>,
    initial: Option<Snapshot>,
    ambiguousFrame: bool,
    browserToolbar: bool)

  datatype SnapshotAnswer = Arrived(snapshot: Snapshot) | SnapshotFailed | NoAnswer

  /** One poll. NoAnswer means the time ran out while waiting for the snapshot. */
  datatype Poll = QueryFailed | FocusLost | Observed(text: string, answer: SnapshotAnswer)

  datatype Status = Verified | Unverified | PendingOrMismatched

  datatype Means =
    | FocusedText | TransformedBlankLine | PlaceholderTransition | RichText
    | AmbiguousWindow | BrowserToolbar | RoundTrip

  datatype Delivery = Delivery(
    status: Status,
    means: Means,
    expectedCount: Option<nat>,
    observedCount: Option<nat>,
    observedText: Option<string>)

  datatype End = ByText | ByBlankLine | ByPlaceholder | ByRichText | ByError | ByTimeout

  predicate SnapshotDue(poll: nat) {
    poll == 0 || poll % 5 == 4
  }

  predicate NodeChangedTo(initial: Snapshot, snapshot: Snapshot, expected: string) {
    exists path :: path in snapshot.nodeTexts && snapshot.nodeTexts[path] == expected &&
      path in initial.nodeTexts && initial.nodeTexts[path] != expected
  }

  /** The descendant test as the loop makes it, on the bytes of the joined texts. */
  predicate ShowsDelivery(r: Receipt, snapshot: Snapshot) {
    r.initial.Some? &&
    (|| NodeChangedTo(r.initial.value, snapshot, r.expected)
     || (snapshot.text == r.expected && r.initial.value.text != r.expected)
     || (r.input != "" &&
         Insertion.IsInsertion(
           Utf8.Encode(r.initial.value.text), Utf8.Encode(snapshot.text), Utf8.Encode(r.input))))
  }

  /** Whether a poll ends the loop, and how. */
  function EndAt(r: Receipt, poll: Poll, index: nat): Option<End> {
    match poll
    case QueryFailed => Some(ByError)
    case FocusLost => Some(ByError)
    case Observed(text, answer) =>
      var seen := Normalize(text);
      if seen == r.expected then Some(ByText)
      else if r.blankLineReplacement == Some(seen) then Some(ByBlankLine)
      else if r.placeholderReplacement == Some(seen) then Some(ByPlaceholder)
      else if !SnapshotDue(index) then None
      else match answer
        case Arrived(snapshot) => if ShowsDelivery(r, snapshot) then Some(ByRichText) else None
        case SnapshotFailed => None
        case NoAnswer => Some(ByTimeout)
  }

  /** The poll that ends the loop, if any does: all before it leave the question open. */
  predicate Ends(r: Receipt, polls: seq<Poll>, index: nat) {
    index < |polls| && EndAt(r, polls[index], index).Some? &&
    forall i: nat :: i < index ==> EndAt(r, polls[i], i).None?
  }

  /** What the last of the first `seen` polls read. */
  function TextSeen(polls: seq<Poll>, seen: nat): Option<string>
    requires seen <= |polls|
  {
    if seen > 0 && polls[seen - 1].Observed? then Some(Normalize(polls[seen - 1].text)) else None
  }

  function CountSeen(polls: seq<Poll>, seen: nat): Option<nat>
    requires seen <= |polls|
  {
    if seen > 0 && polls[seen - 1].Observed? then Some(|polls[seen - 1].text|) else None
  }

  predicate ShowsEmbedded(poll: Poll, index: nat) {
    poll.Observed? &&
    (|| EMBEDDED_OBJECT in poll.text
     || (SnapshotDue(index) && poll.answer.Arrived? && poll.answer.snapshot.hasEmbeddedObject))
  }

  predicate SawEmbedded(polls: seq<Poll>, seen: nat)
    requires seen <= |polls|
  {
    exists i :: 0 <= i < seen && ShowsEmbedded(polls[i], i)
  }

  /** The time ran out after `seen` polls, between polls or waiting for a snapshot. */
  predicate TimesOut(r: Receipt, polls: seq<Poll>, seen: nat) {
    || (seen == |polls| && forall i: nat :: i < seen ==> EndAt(r, polls[i], i).None?)
    || (0 < seen && Ends(r, polls, seen - 1) && EndAt(r, polls[seen - 1], seen - 1) == Some(ByTimeout))
  }

  /** The field of a browser toolbar that read back as empty although text was expected. */
  predicate ReadsBackEmpty(r: Receipt, polls: seq<Poll>, seen: nat)
    requires seen <= |polls|
  {
    r.browserToolbar && r.expected != "" && CountSeen(polls, seen) == Some(0)
  }

  /** The report after a time-out: each means exactly where no earlier one explains it. */
  ghost predicate ReportsTimeout(r: Receipt, polls: seq<Poll>, seen: nat, d: Delivery)
    requires seen <= |polls|
  {
    && d.expectedCount == Some(|r.expected|)
    && d.observedCount == CountSeen(polls, seen) && d.observedText == TextSeen(polls, seen)
    && d.means in {AmbiguousWindow, BrowserToolbar, RichText, FocusedText}
    && (d.means == AmbiguousWindow <==> r.ambiguousFrame)
    && (d.means == BrowserToolbar <==> !r.ambiguousFrame && ReadsBackEmpty(r, polls, seen))
    && (d.means == RichText <==> !r.ambiguousFrame && !ReadsBackEmpty(r, polls, seen) && SawEmbedded(polls, seen))
    && (d.status == PendingOrMismatched <==> d.means == FocusedText)
    && d.status != Verified
  }

  /** The report of a poll that ended the loop otherwise. */
  ghost predicate ReportsEnd(r: Receipt, polls: seq<Poll>, index: nat, d: Delivery)
    requires Ends(r, polls, index)
  {
    match EndAt(r, polls[index], index).value
    case ByText =>
      d == Delivery(Verified, FocusedText, Some(|r.expected|), CountSeen(polls, index + 1), Some(r.expected))
    case ByRichText =>
      d == Delivery(Verified, RichText, Some(|r.expected|), CountSeen(polls, index + 1), TextSeen(polls, index + 1))
    case ByBlankLine =>
      d == Delivery(Unverified, TransformedBlankLine, Some(|r.expected|), CountSeen(polls, index + 1),
                    r.blankLineReplacement)
    case ByPlaceholder =>
      d == Delivery(Unverified, PlaceholderTransition, Some(|r.placeholderReplacement.value|),
                    CountSeen(polls, index + 1), r.placeholderReplacement)
    case ByError => d == Delivery(Unverified, RoundTrip, None, None, TextSeen(polls, index))
    case ByTimeout => d.status != Verified
  }

  method Confirm(r: Receipt, polls: seq<Poll>) returns (d: Delivery)
    ensures d.status == Verified <==>
      exists i: nat :: Ends(r, polls, i) && EndAt(r, polls[i], i).value in {ByText, ByRichText}
    ensures forall i: nat :: Ends(r, polls, i) ==> ReportsEnd(r, polls, i, d)
    ensures forall seen: nat :: TimesOut(r, polls, seen) ==> ReportsTimeout(r, polls, seen, d)
  {
    var end, index, observedCount, observedText, hasEmbeddedObject := Watch(r, polls);
    assert forall i: nat :: Ends(r, polls, i) ==> i == index;
    assert end == ByTimeout ==> forall seen: nat :: TimesOut(r, polls, seen) ==> seen == SeenBy(polls, index);
    var count := |r.expected|;
    match end
    case ByText => d := Delivery(Verified, FocusedText, Some(count), observedCount, observedText);
    case ByRichText => d := Delivery(Verified, RichText, Some(count), observedCount, observedText);
    case ByBlankLine => d := Delivery(Unverified, TransformedBlankLine, Some(count), observedCount, observedText);
    case ByPlaceholder =>
      var replaced := |r.placeholderReplacement.value|;
      d := Delivery(Unverified, PlaceholderTransition, Some(replaced), observedCount, observedText);
    case ByError => d := Delivery(Unverified, RoundTrip, None, None, observedText);
    case ByTimeout =>
      if r.ambiguousFrame {
        d := Delivery(Unverified, AmbiguousWindow, Some(count), observedCount, observedText);
      } else if r.browserToolbar && count > 0 && observedCount == Some(0) {
        d := Delivery(Unverified, BrowserToolbar, Some(count), observedCount, observedText);
      } else if hasEmbeddedObject {
        d := Delivery(Unverified, RichText, Some(count), observedCount, observedText);
      } else {
        d := Delivery(PendingOrMismatched, FocusedText, Some(count), observedCount, observedText);
      }
  }

  /** How many polls were read when the loop ended at `index`. */
  function SeenBy(polls: seq<Poll>, index: nat): (seen: nat)
    requires index <= |polls|
    ensures seen <= |polls|
  {
    if index < |polls| && polls[index].Observed? then index + 1 else index
  }

  /** The poll loop: how it ended, at which poll, and what it had seen by then. */
  method Watch(r: Receipt, polls: seq<Poll>)
    returns (end: End, index: nat, observedCount: Option<nat>, observedText: Option<string>, hasEmbeddedObject: bool)
    ensures index <= |polls| && forall i: nat :: i < index ==> EndAt(r, polls[i], i).None?
    ensures if index < |polls| then EndAt(r, polls[index], index) == Some(end) else end == ByTimeout
    ensures observedCount == CountSeen(polls, SeenBy(polls, index))
    ensures observedText == TextSeen(polls, SeenBy(polls, index))
    ensures end == ByTimeout ==> hasEmbeddedObject == SawEmbedded(polls, SeenBy(polls, index))
  {
    observedCount, observedText, hasEmbeddedObject := None, None, false;
    index := 0;
    while index < |polls|
      invariant index <= |polls|
      invariant forall i: nat :: i < index ==> EndAt(r, polls[i], i).None? && polls[i].Observed?
      invariant observedCount == CountSeen(polls, index) && observedText == TextSeen(polls, index)
      invariant hasEmbeddedObject == SawEmbedded(polls, index)
    {
      var poll := polls[index];
      if !poll.Observed? {
        end := ByError;
        return;
      }
      var seen := Normalize(poll.text);
      observedCount := Some(|poll.text|);
      observedText := Some(seen);
      if seen == r.expected {
        end := ByText;
        return;
      }
      if r.blankLineReplacement == Some(seen) {
        end := ByBlankLine;
        return;
      }
      if r.placeholderReplacement == Some(seen) {
        end := ByPlaceholder;
        return;
      }
      hasEmbeddedObject := hasEmbeddedObject || EMBEDDED_OBJECT in poll.text;
      if SnapshotDue(index) {
        if poll.answer.NoAnswer? {
          end := ByTimeout;
          OneMorePoll(polls, index);
          return;
        }
        if poll.answer.Arrived? {
          hasEmbeddedObject := hasEmbeddedObject || poll.answer.snapshot.hasEmbeddedObject;
          if ShowsDelivery(r, poll.answer.snapshot) {
            end := ByRichText;
            return;
          }
        }
      }
      OneMorePoll(polls, index);
      index := index + 1;
    }
    end := ByTimeout;
  }

  lemma OneMorePoll(polls: seq<Poll>, index: nat)
    requires index < |polls|
    ensures SawEmbedded(polls, index + 1) <==> SawEmbedded(polls, index) || ShowsEmbedded(polls[index], index)
  {
    if SawEmbedded(polls, index) {
      var i :| 0 <= i < index && ShowsEmbedded(polls[i], i);
      assert 0 <= i < index + 1;
    }
  }

  /** What a person would accept as having seen the input arrive: the field shows the
    * expected text, or the text below it changed to it, or gained the input in one place.
    */
  ghost predicate Witnessed(r: Receipt, poll: Poll, index: nat) {
    poll.Observed? &&
    (|| Normalize(poll.text) == r.expected
     || (SnapshotDue(index) && poll.answer.Arrived? && r.initial.Some? && poll.answer.snapshot != r.initial.value &&
         DeliveredBelow(r, r.initial.value, poll.answer.snapshot)))
  }

  ghost predicate DeliveredBelow(r: Receipt, before: Snapshot, after: Snapshot) {
    || NodeChangedTo(before, after, r.expected)
    || (after.text == r.expected && before.text != r.expected)
    || (r.input != "" &&
        exists j: nat :: j <= |before.text| && after.text == before.text[..j] + r.input + before.text[j..])
  }

  /** The field shows a text that replaced a blank line or a placeholder, not the expected one. */
  predicate ShowsReplacement(r: Receipt, poll: Poll) {
    && poll.Observed? && Normalize(poll.text) != r.expected
    && Some(Normalize(poll.text)) in {r.blankLineReplacement, r.placeholderReplacement}
  }

  /** The verifying polls are exactly the witnessing ones: an ending poll verifies if and only
    * if it is a witness and the field does not show a replacement instead.
    */
  lemma VerifiedExactlyWhenWitnessed(r: Receipt, polls: seq<Poll>, index: nat)
    requires Ends(r, polls, index)
    ensures EndAt(r, polls[index], index).value in {ByText, ByRichText} <==>
      Witnessed(r, polls[index], index) && !ShowsReplacement(r, polls[index])
  {
    var poll := polls[index];
    if poll.Observed? && poll.answer.Arrived? && r.initial.Some? {
      DeliveryIsShown(r, poll.answer.snapshot);
    }
  }

  /** The byte test on a snapshot, said in characters; it never accepts an unchanged one. */
  lemma DeliveryIsShown(r: Receipt, snapshot: Snapshot)
    requires r.initial.Some?
    ensures ShowsDelivery(r, snapshot) <==> DeliveredBelow(r, r.initial.value, snapshot)
    ensures ShowsDelivery(r, snapshot) ==> snapshot != r.initial.value
  {
    var before, after := r.initial.value.text, snapshot.text;
    Insertion.IsInsertionOfCharacters(before, after, r.input);
    if j: nat :| j <= |before| && after == before[..j] + r.input + before[j..] {
      assert |after| == |before| + |r.input|;
    }
  }

  /** The first poll asks for a snapshot, and of any five polls on end at least one does. */
  lemma OneInFiveIsDue(from: nat) returns (due: nat)
    ensures from <= due < from + 5 && SnapshotDue(due) && SnapshotDue(0)
    ensures from > 0 ==> forall i :: from <= i < from + 5 ==> (SnapshotDue(i) <==> i == due)
  {
    due := from + (4 - from % 5);
  }

  /** A delivery that lasts is verified: if nothing ended the loop before, and from some poll
    * on the text below the field shows the delivery whenever it is looked at, then one of the
    * next five polls verifies it.
    */
  lemma LastingDeliveryIsVerified(r: Receipt, polls: seq<Poll>, from: nat) returns (index: nat)
    requires from + 5 <= |polls| && r.initial.Some?
    requires forall i: nat :: i < from ==> EndAt(r, polls[i], i).None?
    requires forall i :: from <= i < from + 5 ==>
      && polls[i].Observed? && polls[i].answer.Arrived? && !ShowsReplacement(r, polls[i])
      && DeliveredBelow(r, r.initial.value, polls[i].answer.snapshot)
    ensures from <= index < from + 5 && Ends(r, polls, index)
    ensures EndAt(r, polls[index], index).value in {ByText, ByRichText}
  {
    var due := OneInFiveIsDue(from);
    DeliveryIsShown(r, polls[due].answer.snapshot);
    assert EndAt(r, polls[due], due).Some?;
    index := from;
    while EndAt(r, polls[index], index).None?
      invariant from <= index <= due
      invariant forall i: nat :: i < index ==> EndAt(r, polls[i], i).None?
      decreases due - index
    {
      index := index + 1;
    }
    assert polls[index].Observed? && !ShowsReplacement(r, polls[index]);
  }

  /** No trace is left without a report: a poll ends it otherwise, or the time runs out. */
  lemma EveryTraceIsReported(r: Receipt, polls: seq<Poll>)
    ensures
      || (exists i: nat :: Ends(r, polls, i) && EndAt(r, polls[i], i) != Some(ByTimeout))
      || (exists seen: nat :: TimesOut(r, polls, seen))
  {
    var index := 0;
    while index < |polls| && EndAt(r, polls[index], index).None?
      invariant index <= |polls| && forall i: nat :: i < index ==> EndAt(r, polls[i], i).None?
    {
      index := index + 1;
    }
    if index == |polls| {
      assert TimesOut(r, polls, index);
    } else {
      assert Ends(r, polls, index);
      if EndAt(r, polls[index], index) == Some(ByTimeout) {
        assert TimesOut(r, polls, index + 1);
      }
    }
  }

  /** If nothing below the field ever changes, rich-text verification never happens. */
  lemma UnchangedDescendantsNeverVerify(r: Receipt, polls: seq<Poll>, index: nat)
    requires Ends(r, polls, index)
    requires forall i :: 0 <= i < |polls| && polls[i].Observed? && polls[i].answer.Arrived? ==>
      Some(polls[i].answer.snapshot) == r.initial
    ensures EndAt(r, polls[index], index) != Some(ByRichText)
  {
    VerifiedExactlyWhenWitnessed(r, polls, index);
  }

  /** An expectation that holds a placeholder character is never met by the field's text. */
  lemma PlaceholderExpectationIsNeverMet(r: Receipt, poll: Poll, index: nat)
    requires EMBEDDED_OBJECT in r.expected
    ensures EndAt(r, poll, index) != Some(ByText)
  {
    if poll.Observed? {
      NormalizeRemovesExactlyPlaceholders(poll.text);
    }
  }

  // ----- from capture to verdict

  /** The receipt taken before typing: what the field should hold afterwards, and the two
    * other texts that only count as an unverified change.
    */
  function Capture(raw: string, start: int, end: int, input: string, placeholder: string, name: string,
                   initial: Option<Snapshot>, ambiguousFrame: bool, browserToolbar: bool): Result<Receipt, FieldError>
  {
    var expected := Expected(raw, start, end, input);
    if expected.Err? then Err(expected.error)
    else
      var from, to := NormalizeOffset(raw, start), NormalizeOffset(raw, end);
      var before := Normalize(raw);
      var labelled := from == to && before != "" && input != "" &&
        (before == Normalize(placeholder) || before == Normalize(name));
      var blank := raw == "\n" && from == to && input != "";
      Ok(Receipt(expected.value, Normalize(input), if blank then Some(input) else None,
                 if labelled then Some(input) else None, initial, ambiguousFrame, browserToolbar))
  }

  /** A field that shows the raw splice, with or without placeholders, is verified by its
    * text exactly when the input has no placeholder character.
    */
  lemma SpliceVerifiesExactlyWhen(raw: string, start: nat, end: nat, input: string, placeholder: string, name: string,
                                  initial: Option<Snapshot>, flags: (bool, bool), poll: Poll, index: nat)
    requires start <= end <= |raw|
    requires poll.Observed? && Normalize(poll.text) == Normalize(Splice(raw, start, end, input))
    ensures var r := Capture(raw, start, end, input, placeholder, name, initial, flags.0, flags.1);
      r.Ok? && (EndAt(r.value, poll, index) == Some(ByText) <==> EMBEDDED_OBJECT !in input)
  {
    MappedOffsetsAreInRange(raw, start, end, input);
    SpliceCommutesExactlyWhen(raw, start, end, input);
  }

  /** Typed at a caret into a field whose text is its own placeholder or label: seeing exactly
    * the input is reported as an unverified transition.
    */
  lemma PlaceholderIsNeverVerified(raw: string, caret: nat, input: string, placeholder: string, name: string,
                                   initial: Option<Snapshot>, flags: (bool, bool), poll: Poll, index: nat)
    requires caret <= |raw| && Normalize(raw) != "" && raw != "\n"
    requires Normalize(raw) in {Normalize(placeholder), Normalize(name)}
    requires input != "" && EMBEDDED_OBJECT !in input && poll.Observed? && Normalize(poll.text) == input
    ensures var r := Capture(raw, caret, caret, input, placeholder, name, initial, flags.0, flags.1);
      r.Ok? && EndAt(r.value, poll, index) == Some(ByPlaceholder)
  {
    MappedOffsetsAreInRange(raw, caret, caret, input);
    ExpectedIsSplicedNormalForm(raw, caret, caret, input);
    var front, back := Normalize(raw[..caret]), Normalize(raw[caret..]);
    NormalizeAppends(raw[..caret], raw[caret..]);
    assert raw[..caret] + raw[caret..] == raw;
    assert |front + back| > 0;
    assert |front + input + back| > |input|;
  }

  /** Typed at a caret into an emptied editor that shows one blank line: seeing exactly the
    * input is reported as a transformation, never as verified.
    */
  lemma BlankLineIsNeverVerified(start: nat, input: string, placeholder: string, name: string,
                                 initial: Option<Snapshot>, flags: (bool, bool), poll: Poll, index: nat)
    requires start <= 1 && input != "" && EMBEDDED_OBJECT !in input
    requires poll.Observed? && Normalize(poll.text) == input
    ensures var r := Capture("\n", start, start, input, placeholder, name, initial, flags.0, flags.1).value;
      EndAt(r, poll, index) == Some(ByBlankLine)
  {
    MappedOffsetsAreInRange("\n", start, start, input);
    ExpectedIsSplicedNormalForm("\n", start, start, input);
    var front, back := Normalize("\n"[..start]), Normalize("\n"[start..]);
    NormalizeAppends("\n"[..start], "\n"[start..]);
    assert "\n"[..start] + "\n"[start..] == "\n";
    NormalizeRemovesExactlyPlaceholders("\n");
    assert |front + back| == 1;
    assert |front + input + back| == |input| + 1;
  }
}
