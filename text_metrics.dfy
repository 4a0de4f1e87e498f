/** `_measureText`: the pixel box of a single line of text in a fixed-width font table,
    computed without rendering the text. */
module TextMetrics {
  import opened Common

  /** A UTF-16 code unit, as `charCodeAt` returns it. */
  type CodeUnit = c: int | 0 <= c < 0x1_0000

  /** A font table: one width per character code from `startCode` on, a fallback width
      for codes outside the table, and a fixed line height. */
  datatype FontSpec = FontSpec(height: real, startCode: int, widths: seq<real>, defaultWidth: real)

  datatype TextBox = TextBox(width: real, height: real)

  datatype MeasureError = MissingFontSpec

  /** Width of one code unit: the table entry at `code - startCode`, or the default
      width when that index falls outside the table. */
  function CharWidth(code: CodeUnit, font: FontSpec): real {
    var index := code - font.startCode;
    if index < 0 || index >= |font.widths| then font.defaultWidth else font.widths[index]
  }

  /** Width of a text: the sum of its code units' widths, accumulated left to right. */
  function TextWidth(text: seq<CodeUnit>, font: FontSpec): (r: real)
    ensures text == [] ==> r == 0.0
    ensures font.defaultWidth >= 0.0 && (forall i :: 0 <= i < |font.widths| ==> font.widths[i] >= 0.0) ==> r >= 0.0
  {
    if text == [] then 0.0 else TextWidth(text[..|text| - 1], font) + CharWidth(text[|text| - 1], font)
  }

  /** Width is additive over concatenation. */
  lemma {:induction false} TextWidthAppend(a: seq<CodeUnit>, b: seq<CodeUnit>, font: FontSpec)
    ensures TextWidth(a + b, font) == TextWidth(a, font) + TextWidth(b, font)
    decreases |b|
  {
    if b == [] {
      assert a + b == a;
    } else {
      var b' := b[..|b| - 1];
      assert (a + b)[..|a + b| - 1] == a + b';
      TextWidthAppend(a, b', font);
    }
  }

  /** Codes outside the table are measured with the default width, codes inside with
      their own entry. */
  lemma CharWidthTable(code: CodeUnit, font: FontSpec)
    ensures font.startCode <= code < font.startCode + |font.widths| ==>
              CharWidth(code, font) == font.widths[code - font.startCode]
    ensures (code < font.startCode || code >= font.startCode + |font.widths|) ==>
              CharWidth(code, font) == font.defaultWidth
  {
  }

  /** A table with no negative width never measures a text as negative, and a longer
      text is never narrower than its prefix. */
  lemma {:induction false} TextWidthMonotone(a: seq<CodeUnit>, b: seq<CodeUnit>, font: FontSpec)
    requires font.defaultWidth >= 0.0
    requires forall i :: 0 <= i < |font.widths| ==> font.widths[i] >= 0.0
    ensures 0.0 <= TextWidth(b, font)
    ensures TextWidth(a, font) <= TextWidth(a + b, font)
    decreases |b|
  {
    if b != [] {
      TextWidthMonotone(a, b[..|b| - 1], font);
      assert (a + b)[..|a + b| - 1] == a + b[..|b| - 1];
    } else {
      assert a + b == a;
    }
  }

  /** `_measureText`. A missing font table throws; a missing (nil) text is measured as
      the empty string. Non-string values, which the source converts with `toString`,
      arrive here already converted. */
  method MeasureText(text: Option<seq<CodeUnit>>, fontSpec: Option<FontSpec>)
    returns (r: Result<TextBox, MeasureError>)
    ensures fontSpec.None? <==> r.Failure?
    ensures fontSpec.Some? ==>
              r == Success(TextBox(TextWidth(text.GetOr([]), fontSpec.value), fontSpec.value.height))
    ensures fontSpec.Some? && text.None? ==> r == Success(TextBox(0.0, fontSpec.value.height))
  {
    if fontSpec.None? {
      return Failure(MissingFontSpec);
    }
    var font := fontSpec.value;
    var s := if text.None? then [] else text.value;
    var totalWidth := 0.0;
    var totalHeight := font.height;
    for i := 0 to |s|
      invariant totalWidth == TextWidth(s[..i], font)
    {
      var code := s[i];
      var index := code - font.startCode;
      var width;
      if index < 0 || index >= |font.widths| {
        width := font.defaultWidth;
      } else {
        width := font.widths[index];
      }
      assert s[..i + 1][..i] == s[..i];
      totalWidth := totalWidth + width;
    }
    assert s[..|s|] == s;
    return Success(TextBox(totalWidth, totalHeight));
  }
}
