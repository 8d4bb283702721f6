/**
 * Bounding and cleaning command output (app/core/redaction.py). A text is a sequence of code
 * points, lone surrogates included; its stored form is UTF-8 (section 3 of RFC 3629).
 */
module Redaction {
  import opened Wrappers
  import opened Sequences

  type Code = c: nat | c < 0x11_0000
  type Byte = b: nat | b < 0x100

  type Text = seq<Code>

  // ---------------------------------------------------------------- UTF-8

  predicate IsSurrogate(c: Code) {
    0xD800 <= c <= 0xDFFF
  }

  /** `errors="replace"` writes a question mark for what UTF-8 cannot hold. */
  function Replaced(c: Code): Code {
    if IsSurrogate(c) then 0x3F else c
  }

  function EncodeOne(c: Code): (b: seq<Byte>)
    ensures 1 <= |b| <= 4
  {
    if c < 0x80 then [c]
    else if c < 0x800 then [0xC0 + c / 0x40, 0x80 + c % 0x40]
    else if c < 0x1_0000 then [0xE0 + c / 0x1000, 0x80 + c / 0x40 % 0x40, 0x80 + c % 0x40]
    else [0xF0 + c / 0x4_0000, 0x80 + c / 0x1000 % 0x40, 0x80 + c / 0x40 % 0x40, 0x80 + c % 0x40]
  }

  /** `text.encode("utf-8", errors="replace")`. */
  function Encode(text: Text): seq<Byte> {
    if text == [] then [] else EncodeOne(Replaced(text[0])) + Encode(text[1..])
  }

  function ReplaceAll(text: Text): (r: Text)
    ensures |r| == |text|
  {
    seq(|text|, i requires 0 <= i < |text| => Replaced(text[i]))
  }

  /** How many bytes a sequence starting with `lead` has; 0 for a byte that starts none. */
  function SequenceLength(lead: Byte): nat {
    if lead < 0x80 then 1
    else if 0xC2 <= lead <= 0xDF then 2
    else if 0xE0 <= lead <= 0xEF then 3
    else if 0xF0 <= lead <= 0xF4 then 4
    else 0
  }

  /** Whether `b` can be byte `i` of a sequence starting with `lead`. */
  predicate Continues(lead: Byte, i: nat, b: Byte) {
    if i == 1 && lead == 0xE0 then 0xA0 <= b <= 0xBF
    else if i == 1 && lead == 0xED then 0x80 <= b <= 0x9F
    else if i == 1 && lead == 0xF0 then 0x90 <= b <= 0xBF
    else if i == 1 && lead == 0xF4 then 0x80 <= b <= 0x8F
    else 0x80 <= b <= 0xBF
  }

  /** The bytes of the first sequence that are there and fit, from byte `i` on. */
  function Fitting(bytes: seq<Byte>, i: nat): (n: nat)
    requires bytes != [] && 1 <= i
    ensures n >= i
    decreases 4 - i
  {
    if i < SequenceLength(bytes[0]) && i < |bytes| && Continues(bytes[0], i, bytes[i]) then Fitting(bytes, i + 1) else i
  }

  function Bits(b: Byte, base: int): int {
    b - base
  }

  function DecodeOne(bytes: seq<Byte>): Code
    requires bytes != [] && SequenceLength(bytes[0]) != 0 && Fitting(bytes, 1) == SequenceLength(bytes[0]) <= |bytes|
  {
    var n := SequenceLength(bytes[0]);
    if n == 1 then bytes[0]
    else
      assert Fitting(bytes, 1) >= 2 && Continues(bytes[0], 1, bytes[1]);
      if n == 2 then Bits(bytes[0], 0xC0) * 0x40 + Bits(bytes[1], 0x80)
      else
        assert Fitting(bytes, 2) >= 3 && Continues(bytes[0], 2, bytes[2]);
        if n == 3 then Bits(bytes[0], 0xE0) * 0x1000 + Bits(bytes[1], 0x80) * 0x40 + Bits(bytes[2], 0x80)
        else
          assert Fitting(bytes, 3) >= 4 && Continues(bytes[0], 3, bytes[3]);
          Bits(bytes[0], 0xF0) * 0x4_0000 + Bits(bytes[1], 0x80) * 0x1000 + Bits(bytes[2], 0x80) * 0x40 + Bits(bytes[3], 0x80)
  }

  /** `bytes.decode("utf-8", errors="ignore")`: what does not complete a sequence is skipped. */
  function Decode(bytes: seq<Byte>): Text {
    if bytes == [] then []
    else
      var n := SequenceLength(bytes[0]);
      var fit := Fitting(bytes, 1);
      if n != 0 && fit == n && n <= |bytes| then [DecodeOne(bytes)] + Decode(bytes[n..])
      else Decode(bytes[if fit <= |bytes| then fit else |bytes|..])
  }

  // ---------------------------------------------------------------- decoding undoes encoding

  lemma EncodedContinues(c: Code)
    requires !IsSurrogate(c)
    ensures var b := EncodeOne(c);
      SequenceLength(b[0]) == |b| && forall i :: 1 <= i < |b| ==> Continues(b[0], i, b[i])
  {
  }

  lemma SixBitsAtATime(c: int)
    ensures c / 0x1000 == c / 0x40 / 0x40 && c / 0x4_0000 == c / 0x1000 / 0x40
    ensures c / 0x40 * 0x40 + c % 0x40 == c
    ensures c / 0x1000 * 0x1000 + c / 0x40 % 0x40 * 0x40 + c % 0x40 == c
    ensures c / 0x4_0000 * 0x4_0000 + c / 0x1000 % 0x40 * 0x1000 + c / 0x40 % 0x40 * 0x40 + c % 0x40 == c
  {
  }

  lemma DecodedBits(c: Code, bytes: seq<Byte>)
    requires EncodeOne(c) <= bytes && SequenceLength(bytes[0]) == |EncodeOne(c)| == Fitting(bytes, 1)
    ensures DecodeOne(bytes) == c
  {
    SixBitsAtATime(c);
    assert forall i :: 0 <= i < |EncodeOne(c)| ==> bytes[i] == EncodeOne(c)[i];
  }

  /** An encoded code point is one whole sequence, whatever follows it. */
  lemma EncodedIsOneSequence(c: Code, rest: seq<Byte>)
    requires !IsSurrogate(c)
    ensures var bytes := EncodeOne(c) + rest;
      SequenceLength(bytes[0]) == |EncodeOne(c)| == Fitting(bytes, 1) && DecodeOne(bytes) == c
  {
    var b := EncodeOne(c);
    var bytes := b + rest;
    EncodedContinues(c);
    assert forall i :: 0 <= i < |b| ==> bytes[i] == b[i];
    FittingAll(bytes, |b|, 1);
    DecodedBits(c, bytes);
  }

  lemma {:induction false} FittingAll(bytes: seq<Byte>, n: nat, i: nat)
    requires bytes != [] && 1 <= i <= n <= |bytes| && n <= SequenceLength(bytes[0])
    requires n == SequenceLength(bytes[0]) || n == |bytes|
    requires forall j :: i <= j < n ==> Continues(bytes[0], j, bytes[j])
    ensures Fitting(bytes, i) == n
    decreases n - i
  {
    if i < n {
      FittingAll(bytes, n, i + 1);
    }
  }

  /** The start of an encoded code point, cut off by the end of the bytes, decodes to nothing. */
  lemma CutSequenceIsIgnored(c: Code, n: nat)
    requires !IsSurrogate(c) && n < |EncodeOne(c)|
    ensures Decode(EncodeOne(c)[..n]) == []
  {
    var b := EncodeOne(c);
    if n > 0 {
      var bytes := b[..n];
      EncodedContinues(c);
      assert forall i :: 0 <= i < n ==> bytes[i] == b[i];
      FittingAll(bytes, n, 1);
      assert bytes[n..] == [];
    }
  }

  lemma DecodeFirst(c: Code, rest: seq<Byte>)
    requires !IsSurrogate(c)
    ensures Decode(EncodeOne(c) + rest) == [c] + Decode(rest)
  {
    EncodedIsOneSequence(c, rest);
    assert (EncodeOne(c) + rest)[|EncodeOne(c)|..] == rest;
  }

  /** Decoding gives the encoded text back, surrogates replaced. */
  lemma {:induction false} DecodeEncoded(text: Text)
    ensures Decode(Encode(text)) == ReplaceAll(text)
  {
    if text != [] {
      DecodeFirst(Replaced(text[0]), Encode(text[1..]));
      DecodeEncoded(text[1..]);
      assert ReplaceAll(text) == [Replaced(text[0])] + ReplaceAll(text[1..]);
    }
  }

  // ---------------------------------------------------------------- truncate

  datatype Capped = Capped(text: Text, cut: bool)

  function Codes(s: string): (r: Text)
    ensures |r| == |s|
  {
    seq(|s|, i requires 0 <= i < |s| => s[i] as int)
  }

  const TRUNCATION_NOTICE: Text := Codes("\n\n[output truncated \U{2014} limit reached]")

  /** `truncate`. */
  function Truncate(text: Text, maxBytes: nat): Capped {
    var encoded := Encode(text);
    if |encoded| <= maxBytes then Capped(text, false)
    else Capped(Decode(encoded[..maxBytes]) + TRUNCATION_NOTICE, true)
  }

  /** The first `n` code points fit and no more do. */
  predicate LongestThatFits(text: Text, n: nat, maxBytes: nat) {
    n < |text| && |Encode(text[..n])| <= maxBytes < |Encode(text[..n + 1])|
  }

  lemma {:induction false} EncodeConcat(a: Text, b: Text)
    ensures Encode(a + b) == Encode(a) + Encode(b)
  {
    if a == [] {
      assert a + b == b;
    } else {
      assert (a + b)[1..] == a[1..] + b;
      EncodeConcat(a[1..], b);
    }
  }

  lemma EncodeFirst(c: Code, rest: Text)
    ensures Encode([c] + rest) == EncodeOne(Replaced(c)) + Encode(rest)
    ensures ReplaceAll([c] + rest) == [Replaced(c)] + ReplaceAll(rest)
  {
    assert ([c] + rest)[1..] == rest;
  }

  lemma CutInTheFirst(c: Code, rest: Text, maxBytes: nat)
    requires maxBytes < |EncodeOne(Replaced(c))|
    ensures LongestThatFits([c] + rest, 0, maxBytes)
    ensures Decode(Encode([c] + rest)[..maxBytes]) == []
  {
    var text, first := [c] + rest, EncodeOne(Replaced(c));
    EncodeFirst(c, rest);
    EncodeFirst(c, []);
    assert [c] + [] == [c] && text[..1] == [c] && text[..0] == [];
    assert Encode(text)[..maxBytes] == first[..maxBytes];
    CutSequenceIsIgnored(Replaced(c), maxBytes);
  }

  lemma CutInTheRest(c: Code, rest: Text, maxBytes: nat, m: nat)
    requires maxBytes >= |EncodeOne(Replaced(c))|
    requires maxBytes - |EncodeOne(Replaced(c))| <= |Encode(rest)| && LongestThatFits(rest, m, maxBytes - |EncodeOne(Replaced(c))|)
    ensures LongestThatFits([c] + rest, m + 1, maxBytes)
    ensures |Encode([c] + rest)| >= maxBytes
    ensures Decode(Encode([c] + rest)[..maxBytes]) == [Replaced(c)] + Decode(Encode(rest)[..maxBytes - |EncodeOne(Replaced(c))|])
  {
    var text, first := [c] + rest, EncodeOne(Replaced(c));
    EncodeFirst(c, rest);
    assert text[..m + 1] == [c] + rest[..m] && text[..m + 2] == [c] + rest[..m + 1];
    EncodeFirst(c, rest[..m]);
    EncodeFirst(c, rest[..m + 1]);
    assert Encode(text)[..maxBytes] == first + Encode(rest)[..maxBytes - |first|];
    DecodeFirst(Replaced(c), Encode(rest)[..maxBytes - |first|]);
  }

  /** Cut anywhere, the bytes decode to the longest prefix whose bytes are all there. */
  lemma {:induction false} DecodeCut(text: Text, maxBytes: nat) returns (n: nat)
    requires maxBytes < |Encode(text)|
    ensures LongestThatFits(text, n, maxBytes)
    ensures Decode(Encode(text)[..maxBytes]) == ReplaceAll(text[..n])
  {
    var c, rest := text[0], text[1..];
    var first := |EncodeOne(Replaced(c))|;
    HeadTail(text);
    EncodeFirst(c, rest);
    if maxBytes < first {
      n := 0;
      CutInTheFirst(c, rest, maxBytes);
    } else {
      var m := DecodeCut(rest, maxBytes - first);
      n := m + 1;
      CutInTheRest(c, rest, maxBytes, m);
      assert text[..n] == [c] + rest[..m];
      EncodeFirst(c, rest[..m]);
    }
  }

  /** There is only one longest prefix. */
  lemma LongestIsUnique(text: Text, n: nat, m: nat, maxBytes: nat)
    requires LongestThatFits(text, n, maxBytes) && LongestThatFits(text, m, maxBytes)
    ensures n == m
  {
    if n < m {
      LongerTakesMore(text, n + 1, m);
    } else if m < n {
      LongerTakesMore(text, m + 1, n);
    }
  }

  lemma LongerTakesMore(text: Text, n: nat, m: nat)
    requires n <= m <= |text|
    ensures |Encode(text[..n])| <= |Encode(text[..m])|
  {
    assert text[..m] == text[..n] + text[n..m];
    EncodeConcat(text[..n], text[n..m]);
  }

  predicate NoSurrogates(text: Text) {
    forall i :: 0 <= i < |text| ==> !IsSurrogate(text[i])
  }

  /**
   * A text within the byte budget is kept as it is; a longer one becomes its one longest prefix
   * within the budget, and the notice. Surrogates of a text that is cut become question marks.
   */
  lemma TruncateKeepsWhatFits(text: Text, maxBytes: nat, n: nat)
    ensures !Truncate(text, maxBytes).cut <==> |Encode(text)| <= maxBytes
    ensures |Encode(text)| <= maxBytes ==> Truncate(text, maxBytes).text == text
    ensures |Encode(text)| > maxBytes ==>
      (LongestThatFits(text, n, maxBytes) <==> n <= |text| && Truncate(text, maxBytes).text == ReplaceAll(text[..n]) + TRUNCATION_NOTICE)
    ensures |Encode(text)| > maxBytes && LongestThatFits(text, n, maxBytes) && NoSurrogates(text) ==>
      Truncate(text, maxBytes).text == text[..n] + TRUNCATION_NOTICE
  {
    if |Encode(text)| > maxBytes {
      var m := DecodeCut(text, maxBytes);
      if LongestThatFits(text, n, maxBytes) {
        LongestIsUnique(text, n, m, maxBytes);
      } else if n <= |text| {
        assert |ReplaceAll(text[..n]) + TRUNCATION_NOTICE| != |ReplaceAll(text[..m]) + TRUNCATION_NOTICE|;
      }
      if NoSurrogates(text) {
        assert ReplaceAll(text[..m]) == text[..m];
      }
    }
  }

  lemma {:induction false} ReplacedEncodesAlike(text: Text)
    ensures Encode(ReplaceAll(text)) == Encode(text)
  {
    if text != [] {
      HeadTail(text);
      EncodeFirst(text[0], text[1..]);
      EncodeFirst(Replaced(text[0]), ReplaceAll(text[1..]));
      ReplacedEncodesAlike(text[1..]);
    }
  }

  lemma {:induction false} AtLeastOneByteEach(text: Text)
    ensures |Encode(text)| >= |text|
  {
    if text != [] {
      AtLeastOneByteEach(text[1..]);
    }
  }

  /** The longest prefix that fits leaves less than one code point's bytes unused. */
  lemma LittleIsUnused(text: Text, n: nat, maxBytes: nat)
    requires LongestThatFits(text, n, maxBytes)
    ensures maxBytes - 3 <= |Encode(text[..n])| <= maxBytes
  {
    OneMore(text, n);
    EncodeConcat(text[..n], [text[n]]);
    EncodeFirst(text[n], []);
    assert [text[n]] + [] == [text[n]];
  }

  /** The size of a cut text: the budget but for the bytes of a code point cut off, and the notice. */
  lemma CutTextSize(text: Text, maxBytes: nat)
    requires |Encode(text)| > maxBytes
    ensures var size := |Encode(Truncate(text, maxBytes).text)|;
      maxBytes - 3 + |Encode(TRUNCATION_NOTICE)| <= size <= maxBytes + |Encode(TRUNCATION_NOTICE)|
  {
    var n := DecodeCut(text, maxBytes);
    EncodeConcat(ReplaceAll(text[..n]), TRUNCATION_NOTICE);
    ReplacedEncodesAlike(text[..n]);
    LittleIsUnused(text, n, maxBytes);
  }

  /** The result is within the byte budget exactly when the text was: every cut text exceeds it. */
  lemma CappedIff(text: Text, maxBytes: nat)
    ensures |Encode(Truncate(text, maxBytes).text)| <= maxBytes <==> |Encode(text)| <= maxBytes
  {
    if |Encode(text)| > maxBytes {
      CutTextSize(text, maxBytes);
      AtLeastOneByteEach(TRUNCATION_NOTICE);
    }
  }

  // ---------------------------------------------------------------- strip_control_characters

  const ESC: Code := 0x1B
  const BEL: Code := 0x07

  /** The length of the run of characters from `lo` to `hi` at `i`. */
  function RunOf(text: Text, i: nat, lo: Code, hi: Code): (n: nat)
    requires i <= |text|
    ensures i + n <= |text|
    decreases |text| - i
  {
    if i < |text| && lo <= text[i] <= hi then 1 + RunOf(text, i + 1, lo, hi) else 0
  }

  /** `ESC [ [0-?]* [ -/]* [@-~]`: the three classes are disjoint, so each takes all it can. */
  function ControlSequence(text: Text): Option<nat> {
    if |text| < 2 || text[0] != ESC || text[1] != 0x5B then None
    else
      var i := 2 + RunOf(text, 2, 0x30, 0x3F);
      var j := i + RunOf(text, i, 0x20, 0x2F);
      if j < |text| && 0x40 <= text[j] <= 0x7E then Some(j + 1) else None
  }

  /** Where the first BEL or ST at or after `i` ends. */
  function Terminator(text: Text, i: nat): (r: Option<nat>)
    requires i <= |text|
    ensures r.Some? ==> i < r.value <= |text|
    decreases |text| - i
  {
    if i == |text| then None
    else if text[i] == BEL then Some(i + 1)
    else if text[i] == ESC && i + 1 < |text| && text[i + 1] == 0x5C then Some(i + 2)
    else Terminator(text, i + 1)
  }

  /** `ESC ] .*? (BEL | ESC \)`. */
  function OperatingCommand(text: Text): Option<nat> {
    if |text| < 2 || text[0] != ESC || text[1] != 0x5D then None else Terminator(text, 2)
  }

  /** `ESC [@-Z\-_]`. */
  function TwoCharacters(text: Text): Option<nat> {
    if |text| >= 2 && text[0] == ESC && (0x40 <= text[1] <= 0x5A || 0x5C <= text[1] <= 0x5F) then Some(2) else None
  }

  /** The length of the escape at the start, the alternatives in order. */
  function EscapeLength(text: Text): (r: Option<nat>)
    ensures r.Some? ==> 2 <= r.value <= |text| && text[0] == ESC
  {
    if ControlSequence(text).Some? then ControlSequence(text)
    else if OperatingCommand(text).Some? then OperatingCommand(text)
    else TwoCharacters(text)
  }

  /** `_ANSI.sub("", text)`. */
  function WithoutEscapes(text: Text): Text {
    if text == [] then []
    else
      match EscapeLength(text)
      case Some(n) => WithoutEscapes(text[n..])
      case None => [text[0]] + WithoutEscapes(text[1..])
  }

  /** C0 but tab and newline, DEL, and C1. */
  predicate IsControl(c: Code) {
    c <= 0x08 || 0x0B <= c <= 0x1F || 0x7F <= c <= 0x9F
  }

  /** `strip_control_characters`. */
  function StripControls(text: Text): Text {
    Filter(WithoutEscapes(text), (c: Code) => !IsControl(c))
  }

  /** `a` can be had from `b` by leaving characters out. */
  predicate IsSubsequence(a: Text, b: Text) {
    if a == [] then true
    else if b == [] then false
    else if a[0] == b[0] then IsSubsequence(a[1..], b[1..])
    else IsSubsequence(a, b[1..])
  }

  lemma {:induction false} SubsequenceOfLonger(a: Text, b: Text)
    requires b != [] && IsSubsequence(a, b[1..])
    ensures IsSubsequence(a, b)
  {
    if a != [] && a[0] == b[0] {
      SubsequenceDropsFirst(a, b[1..]);
    }
  }

  lemma {:induction false} SubsequenceDropsFirst(a: Text, b: Text)
    requires a != [] && IsSubsequence(a, b)
    ensures IsSubsequence(a[1..], b)
  {
    if a[0] == b[0] {
      SubsequenceOfLonger(a[1..], b);
    } else {
      SubsequenceDropsFirst(a, b[1..]);
      SubsequenceOfLonger(a[1..], b);
    }
  }

  lemma {:induction false} SubsequenceOfSuffix(a: Text, b: Text, n: nat)
    requires n <= |b| && IsSubsequence(a, b[n..])
    ensures IsSubsequence(a, b)
    decreases n
  {
    if n > 0 {
      assert b[n..] == b[n - 1..][1..];
      SubsequenceOfLonger(a, b[n - 1..]);
      SubsequenceOfSuffix(a, b, n - 1);
    } else {
      assert b[0..] == b;
    }
  }

  lemma {:induction false} SubsequenceIsTransitive(a: Text, b: Text, c: Text)
    requires IsSubsequence(a, b) && IsSubsequence(b, c)
    ensures IsSubsequence(a, c)
    decreases |b| + |c|
  {
    if a != [] {
      if b[0] != c[0] {
        SubsequenceIsTransitive(a, b, c[1..]);
        SubsequenceOfLonger(a, c);
      } else if a[0] != b[0] {
        SubsequenceIsTransitive(a, b[1..], c[1..]);
        SubsequenceOfLonger(a, c);
      } else {
        SubsequenceIsTransitive(a[1..], b[1..], c[1..]);
      }
    }
  }

  lemma {:induction false} FilterIsSubsequence(text: Text, p: Code -> bool)
    ensures IsSubsequence(Filter(text, p), text)
  {
    if text != [] {
      FilterIsSubsequence(text[1..], p);
      var rest := Filter(text[1..], p);
      if p(text[0]) {
        assert ([text[0]] + rest)[1..] == rest;
      } else {
        assert [] + rest == rest;
        SubsequenceOfLonger(rest, text);
      }
    }
  }

  lemma {:induction false} WithoutEscapesIsSubsequence(text: Text)
    ensures IsSubsequence(WithoutEscapes(text), text)
    decreases |text|
  {
    if text != [] {
      match EscapeLength(text) {
        case Some(n) =>
          WithoutEscapesIsSubsequence(text[n..]);
          SubsequenceOfSuffix(WithoutEscapes(text), text, n);
        case None =>
          WithoutEscapesIsSubsequence(text[1..]);
          assert WithoutEscapes(text)[1..] == WithoutEscapes(text[1..]);
      }
    }
  }

  predicate HasControls(text: Text) {
    exists i :: 0 <= i < |text| && IsControl(text[i])
  }

  lemma {:induction false} NothingToEscape(text: Text)
    requires !HasControls(text)
    ensures WithoutEscapes(text) == text
  {
    if text != [] {
      assert !IsControl(text[0]);
      assert forall i :: 0 <= i < |text[1..]| ==> text[1..][i] == text[i + 1];
      NothingToEscape(text[1..]);
    }
  }

  /**
   * Cleaning leaves some of the characters in their order, none of them a control character other
   * than tab and newline; it leaves a text as it is exactly when that has none; and cleaning again
   * changes nothing.
   */
  lemma CleanedTextIsPlain(text: Text)
    ensures IsSubsequence(StripControls(text), text)
    ensures !HasControls(StripControls(text))
    ensures StripControls(text) == text <==> !HasControls(text)
    ensures StripControls(StripControls(text)) == StripControls(text)
  {
    var plain := (c: Code) => !IsControl(c);
    var cleaned := StripControls(text);
    WithoutEscapesIsSubsequence(text);
    FilterIsSubsequence(WithoutEscapes(text), plain);
    SubsequenceIsTransitive(cleaned, WithoutEscapes(text), text);
    forall i | 0 <= i < |cleaned| ensures !IsControl(cleaned[i]) {
      assert cleaned[i] in cleaned;
    }
    PlainTextStays(cleaned);
    if !HasControls(text) {
      PlainTextStays(text);
    }
  }

  lemma PlainTextStays(text: Text)
    requires !HasControls(text)
    ensures StripControls(text) == text
  {
    NothingToEscape(text);
    FilterAll(text, (c: Code) => !IsControl(c));
  }

  lemma {:induction false} SkipsPlain(before: Text, after: Text)
    requires !HasControls(before)
    ensures WithoutEscapes(before + after) == before + WithoutEscapes(after)
  {
    if before == [] {
      assert before + after == after;
    } else {
      assert !IsControl(before[0]);
      assert forall i :: 0 <= i < |before[1..]| ==> before[1..][i] == before[i + 1];
      SkipsPlain(before[1..], after);
      assert (before + after)[1..] == before[1..] + after;
    }
  }

  // ---------------------------------------------------------------- what cleaning takes away

  /** Tab, newline, the printable ASCII characters and everything from U+00A0 on. */
  predicate Plain(c: Code) {
    c == 0x09 || c == 0x0A || 0x20 <= c <= 0x7E || 0xA0 <= c
  }

  lemma {:induction false} NoEscapesNoChange(text: Text)
    requires forall i :: 0 <= i < |text| ==> text[i] != 0x1B
    ensures WithoutEscapes(text) == text
  {
    if text != [] {
      assert forall i :: 0 <= i < |text[1..]| ==> text[1..][i] == text[i + 1];
      NoEscapesNoChange(text[1..]);
    }
  }

  /** Only plain characters are left, and of a text without ESC all of them. */
  lemma PlainCharactersStay(text: Text)
    ensures forall c :: c in StripControls(text) ==> Plain(c)
    ensures (forall i :: 0 <= i < |text| ==> text[i] != 0x1B) ==> StripControls(text) == Filter(text, (c: Code) => Plain(c))
  {
    if forall i :: 0 <= i < |text| ==> text[i] != 0x1B {
      NoEscapesNoChange(text);
      FilterAlikeWithin(text, (c: Code) => !IsControl(c), (c: Code) => Plain(c));
    }
  }

  predicate InRange(text: Text, i: nat, j: nat, lo: Code, hi: Code)
    requires i <= j <= |text|
  {
    forall k :: i <= k < j ==> lo <= text[k] <= hi
  }

  /** ESC and "[", parameters from "0" to "?", then from " " to "/", and a last character from "@" to "~". */
  predicate IsControlSequence(e: Text) {
    && |e| >= 3 && e[0] == 0x1B && e[1] == 0x5B && 0x40 <= e[|e| - 1] <= 0x7E
    && exists m: nat :: 2 <= m <= |e| - 1 && InRange(e, 2, m, 0x30, 0x3F) && InRange(e, m, |e| - 1, 0x20, 0x2F)
  }

  /** BEL, or ESC and a backslash, at `k`. */
  predicate TerminatorAt(text: Text, k: nat) {
    k < |text| && (text[k] == 0x07 || (text[k] == 0x1B && k + 1 < |text| && text[k + 1] == 0x5C))
  }

  predicate FirstTerminator(text: Text, i: nat, k: nat) {
    i <= k < |text| && TerminatorAt(text, k) && forall j: nat :: i <= j < k ==> !TerminatorAt(text, j)
  }

  function AfterTerminator(text: Text, k: nat): nat
    requires k < |text|
  {
    if text[k] == 0x07 then k + 1 else k + 2
  }

  /** ESC and "]", up to and with the first terminator. */
  predicate IsOperatingCommand(e: Text) {
    && |e| >= 3 && e[0] == 0x1B && e[1] == 0x5D
    && exists k: nat :: k < |e| && FirstTerminator(e, 2, k) && |e| == AfterTerminator(e, k)
  }

  predicate IsTwoCharacters(e: Text) {
    |e| == 2 && e[0] == 0x1B && (0x40 <= e[1] <= 0x5A || 0x5C <= e[1] <= 0x5F)
  }

  /** The first `n` characters are an escape; an operating command is taken before the two characters it starts with. */
  ghost predicate EscapeAt(text: Text, n: nat) {
    && n <= |text|
    && (IsControlSequence(text[..n]) || IsOperatingCommand(text[..n])
        || (IsTwoCharacters(text[..n]) && forall m: nat :: m <= |text| ==> !IsOperatingCommand(text[..m])))
  }

  lemma {:induction false} RunIs(text: Text, i: nat, j: nat, lo: Code, hi: Code)
    requires i <= j <= |text| && InRange(text, i, j, lo, hi) && (j < |text| ==> !(lo <= text[j] <= hi))
    ensures RunOf(text, i, lo, hi) == j - i
    decreases j - i
  {
    if i < j {
      RunIs(text, i + 1, j, lo, hi);
    }
  }

  lemma {:induction false} RunReaches(text: Text, i: nat, lo: Code, hi: Code)
    requires i <= |text|
    ensures InRange(text, i, i + RunOf(text, i, lo, hi), lo, hi)
    decreases |text| - i
  {
    if i < |text| && lo <= text[i] <= hi {
      RunReaches(text, i + 1, lo, hi);
    }
  }

  lemma ControlSequenceIff(text: Text, n: nat)
    ensures ControlSequence(text) == Some(n) <==> n <= |text| && IsControlSequence(text[..n])
  {
    if ControlSequence(text) == Some(n) {
      var m := 2 + RunOf(text, 2, 0x30, 0x3F);
      RunReaches(text, 2, 0x30, 0x3F);
      RunReaches(text, m, 0x20, 0x2F);
      assert InRange(text[..n], 2, m, 0x30, 0x3F) && InRange(text[..n], m, n - 1, 0x20, 0x2F);
    }
    if n <= |text| && IsControlSequence(text[..n]) {
      var e := text[..n];
      var m: nat :| 2 <= m <= n - 1 && InRange(e, 2, m, 0x30, 0x3F) && InRange(e, m, n - 1, 0x20, 0x2F);
      assert forall k :: 0 <= k < n ==> text[k] == e[k];
      assert !(0x30 <= text[m] <= 0x3F);
      RunIs(text, 2, m, 0x30, 0x3F);
      RunIs(text, m, n - 1, 0x20, 0x2F);
    }
  }

  lemma {:induction false} TerminatorIs(text: Text, i: nat, k: nat)
    requires FirstTerminator(text, i, k)
    ensures Terminator(text, i) == Some(AfterTerminator(text, k))
    decreases k - i
  {
    if i < k {
      assert !TerminatorAt(text, i);
      TerminatorIs(text, i + 1, k);
    }
  }

  lemma {:induction false} TerminatorFound(text: Text, i: nat) returns (k: nat)
    requires i <= |text| && Terminator(text, i).Some?
    ensures FirstTerminator(text, i, k) && Terminator(text, i) == Some(AfterTerminator(text, k))
    decreases |text| - i
  {
    if TerminatorAt(text, i) {
      k := i;
    } else {
      k := TerminatorFound(text, i + 1);
    }
  }

  lemma CutAtTerminator(text: Text, k: nat, n: nat)
    requires k < n <= |text|
    ensures FirstTerminator(text[..n], 2, k) && n == AfterTerminator(text[..n], k) <==> FirstTerminator(text, 2, k) && n == AfterTerminator(text, k)
  {
    var e := text[..n];
    assert forall j :: 0 <= j < n ==> text[j] == e[j];
    forall j: nat | j < k ensures TerminatorAt(e, j) <==> TerminatorAt(text, j) {
    }
  }

  lemma OperatingCommandIff(text: Text, n: nat)
    ensures OperatingCommand(text) == Some(n) <==> n <= |text| && IsOperatingCommand(text[..n])
  {
    if OperatingCommand(text) == Some(n) {
      var k := TerminatorFound(text, 2);
      CutAtTerminator(text, k, n);
    }
    if n <= |text| && IsOperatingCommand(text[..n]) {
      var k: nat :| k < |text[..n]| && FirstTerminator(text[..n], 2, k) && n == AfterTerminator(text[..n], k);
      assert text[..n][0] == text[0] && text[..n][1] == text[1];
      CutAtTerminator(text, k, n);
      TerminatorIs(text, 2, k);
    }
  }

  /** The escapes taken out are exactly these. */
  lemma EscapeLengthIff(text: Text, n: nat)
    ensures EscapeLength(text) == Some(n) <==> EscapeAt(text, n)
  {
    ControlSequenceIff(text, n);
    OperatingCommandIff(text, n);
    if n <= |text| && n >= 2 {
      assert text[..n][0] == text[0] && text[..n][1] == text[1];
    }
    if ControlSequence(text).Some? {
      ControlSequenceIff(text, ControlSequence(text).value);
    }
    if OperatingCommand(text).Some? {
      OperatingCommandIff(text, OperatingCommand(text).value);
    }
    forall m: nat | m <= |text| && IsOperatingCommand(text[..m]) ensures OperatingCommand(text) == Some(m) {
      OperatingCommandIff(text, m);
    }
  }

  lemma PlainHasNoControls(text: Text)
    requires forall c :: c in text ==> Plain(c)
    ensures !HasControls(text)
  {
    forall i | 0 <= i < |text| ensures !IsControl(text[i]) {
      assert text[i] in text;
    }
  }

  lemma CleanedAfterPlain(before: Text, after: Text)
    requires !HasControls(before)
    ensures StripControls(before + after) == before + StripControls(after)
  {
    SkipsPlain(before, after);
    FilterConcat(before, WithoutEscapes(after), (c: Code) => !IsControl(c));
    PlainTextStays(before);
    NothingToEscape(before);
  }

  /**
   * What follows plain characters: a complete escape disappears whole, and of any other start the
   * first character alone unless it is plain.
   */
  lemma EscapesVanish(before: Text, after: Text, n: nat)
    requires forall c :: c in before ==> Plain(c)
    ensures EscapeAt(after, n) ==> StripControls(before + after) == before + StripControls(after[n..])
    ensures after != [] && !Plain(after[0]) && (forall m :: !EscapeAt(after, m)) ==> StripControls(before + after) == before + StripControls(after[1..])
  {
    PlainHasNoControls(before);
    CleanedAfterPlain(before, after);
    EscapeLengthIff(after, n);
    if after != [] && !Plain(after[0]) && (forall m :: !EscapeAt(after, m)) && EscapeLength(after).Some? {
      EscapeLengthIff(after, EscapeLength(after).value);
    }
  }
}
