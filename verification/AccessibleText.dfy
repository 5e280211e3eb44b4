/** Accessible text without U+FFFC, the placeholder of inline objects, and the text a
  * field is expected to hold once input replaces the selection.
  */
module AccessibleText {
  import opened Options

  const EMBEDDED_OBJECT: char := '\U{FFFC}'

  function Normalize(text: string): string {
    if text == [] then []
    else (if text[0] == EMBEDDED_OBJECT then [] else [text[0]]) + Normalize(text[1..])
  }

  function Take(text: string, count: nat): string {
    if count <= |text| then text[..count] else text
  }

  /** How many characters before `offset` survive normalising. */
  function NormalizeOffset(text: string, offset: nat): nat {
    |Normalize(Take(text, offset))|
  }

  lemma {:induction false} NormalizeAppends(a: string, b: string)
    ensures Normalize(a + b) == Normalize(a) + Normalize(b)
  {
    if a == [] {
      assert a + b == b;
    } else {
      assert (a + b)[1..] == a[1..] + b;
      NormalizeAppends(a[1..], b);
    }
  }

  /** A placeholder-free text is its own normal form, and normal forms are placeholder-free. */
  lemma {:induction false} NormalizeRemovesExactlyPlaceholders(text: string)
    ensures EMBEDDED_OBJECT !in Normalize(text)
    ensures Normalize(text) == text <==> EMBEDDED_OBJECT !in text
  {
    if text != [] {
      NormalizeRemovesExactlyPlaceholders(text[1..]);
      assert text == [text[0]] + text[1..];
      NormalizeShrinks(text[1..]);
    }
  }

  lemma {:induction false} NormalizeShrinks(text: string)
    ensures |Normalize(text)| <= |text|
  {
    if text != [] {
      NormalizeShrinks(text[1..]);
    }
  }

  /** Normalising loses the placeholders and nothing else. */
  lemma {:induction false} NormalizeKeepsTheRest(text: string)
    ensures multiset(Normalize(text)) == multiset(text)[EMBEDDED_OBJECT := 0]
    ensures |Normalize(text)| == |text| - multiset(text)[EMBEDDED_OBJECT]
  {
    if text != [] {
      NormalizeKeepsTheRest(text[1..]);
      assert text == [text[0]] + text[1..];
      var kept := if text[0] == EMBEDDED_OBJECT then [] else [text[0]];
      assert Normalize(text) == kept + Normalize(text[1..]);
      assert multiset(Normalize(text)) == multiset(kept) + multiset(Normalize(text[1..]));
    }
  }

  /** And keeps the order: what one text has before another's characters stays before them. */
  lemma KeptCharacterStaysInPlace(text: string, k: nat)
    requires k < |text| && text[k] != EMBEDDED_OBJECT
    ensures NormalizeOffset(text, k) < |Normalize(text)| && Normalize(text)[NormalizeOffset(text, k)] == text[k]
  {
    OffsetSplitsNormalForm(text, k);
    assert text[k..][0] == text[k];
    assert Normalize(text)[NormalizeOffset(text, k)] == Normalize(text)[NormalizeOffset(text, k)..][0];
  }

  /** Offsets map to where they point: the normal form splits there. */
  lemma OffsetSplitsNormalForm(text: string, offset: nat)
    requires offset <= |text|
    ensures NormalizeOffset(text, offset) <= |Normalize(text)|
    ensures Normalize(text)[..NormalizeOffset(text, offset)] == Normalize(text[..offset])
    ensures Normalize(text)[NormalizeOffset(text, offset)..] == Normalize(text[offset..])
  {
    assert text == text[..offset] + text[offset..];
    NormalizeAppends(text[..offset], text[offset..]);
  }

  lemma OffsetsStayOrdered(text: string, start: nat, end: nat)
    requires start <= end <= |text|
    ensures NormalizeOffset(text, start) <= NormalizeOffset(text, end) <= |Normalize(text)|
  {
    assert text[..end] == text[..start] + text[start..end];
    NormalizeAppends(text[..start], text[start..end]);
    OffsetSplitsNormalForm(text, end);
  }

  datatype FieldError = InvalidOffsets | InvalidInsertionOffsets

  /** Replace the characters from `start` to `end` of a text by `input`. */
  function Splice(text: string, start: nat, end: nat, input: string): string {
    Take(text, start) + input + if end <= |text| then text[end..] else []
  }

  /** The expected text of a field: offsets are checked on the raw text, mapped, checked
    * again, and the splice is made in the normal form.
    */
  function Expected(text: string, start: int, end: int, input: string): Result<string, FieldError> {
    if start < 0 || end < start || end > |text| then Err(InvalidOffsets)
    else
      var from, to := NormalizeOffset(text, start), NormalizeOffset(text, end);
      var before := Normalize(text);
      if from > |before| || to > |before| then Err(InvalidInsertionOffsets)
      else Ok(Splice(before, from, to, input))
  }

  /** The second check can never fail. */
  lemma MappedOffsetsAreInRange(text: string, start: int, end: int, input: string)
    ensures Expected(text, start, end, input).Err? <==> !(0 <= start <= end <= |text|)
    ensures Expected(text, start, end, input) != Err(InvalidInsertionOffsets)
  {
    if 0 <= start <= end <= |text| {
      OffsetsStayOrdered(text, start, end);
    }
  }

  /** Splicing in the normal form is normalising the raw splice, except that the input
    * itself is not normalised.
    */
  lemma ExpectedIsSplicedNormalForm(text: string, start: nat, end: nat, input: string)
    requires start <= end <= |text|
    ensures Expected(text, start, end, input) == Ok(Normalize(text[..start]) + input + Normalize(text[end..]))
    ensures Normalize(Splice(text, start, end, input)) ==
      Normalize(text[..start]) + Normalize(input) + Normalize(text[end..])
  {
    MappedOffsetsAreInRange(text, start, end, input);
    OffsetSplitsNormalForm(text, start);
    OffsetSplitsNormalForm(text, end);
    NormalizeAppends(text[..start] + input, text[end..]);
    NormalizeAppends(text[..start], input);
  }

  /** Normalising commutes with splicing exactly when the input has no placeholder. */
  lemma SpliceCommutesExactlyWhen(text: string, start: nat, end: nat, input: string)
    requires start <= end <= |text|
    ensures Expected(text, start, end, input) == Ok(Normalize(Splice(text, start, end, input))) <==>
      EMBEDDED_OBJECT !in input
  {
    ExpectedIsSplicedNormalForm(text, start, end, input);
    NormalizeRemovesExactlyPlaceholders(input);
    var front, back := Normalize(text[..start]), Normalize(text[end..]);
    if front + input + back == front + Normalize(input) + back {
      assert |input| == |Normalize(input)|;
      assert (front + input + back)[|front|..|front| + |input|] == input;
      assert (front + Normalize(input) + back)[|front|..|front| + |input|] == Normalize(input);
    }
  }

  /** Input with a placeholder makes an expectation no observed text can meet. */
  lemma PlaceholderInputIsNeverObserved(text: string, start: nat, end: nat, input: string, observed: string)
    requires start <= end <= |text| && EMBEDDED_OBJECT in input
    ensures Expected(text, start, end, input) != Ok(Normalize(observed))
  {
    ExpectedIsSplicedNormalForm(text, start, end, input);
    NormalizeRemovesExactlyPlaceholders(observed);
    var i :| 0 <= i < |input| && input[i] == EMBEDDED_OBJECT;
    var front := Normalize(text[..start]);
    assert Expected(text, start, end, input).value[|front| + i] == EMBEDDED_OBJECT;
  }
}
