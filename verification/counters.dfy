/**
 * The trust/stat counters: each counter's text is parsed once into a target
 * number and a display style, animated from 0 towards the target frame by
 * frame, and put back to its original (trimmed) text on the last frame. One
 * latch shared by the whole group lets the animation start only once.
 */
module Counters {
  import opened Wrappers
  import opened JsText

  const Peso: char := '\U{20B1}'
  /** U+212A, which `toLowerCase` turns into an ASCII 'k'. */
  const KelvinSign: char := '\U{212A}'
  /** The animation's length in milliseconds. */
  const Duration: nat := 2000

  /** The format flags, each detected on its own in the trimmed text. */
  datatype Flags = Flags(percent: bool, plus: bool, currency: bool, kilo: bool)

  /** How intermediate frames are written. */
  datatype Style = CurrencyKilo | Currency | Percent | Plus | Kilo | Plain

  /** `includes('%')`, `includes('+')`, `includes('₱')` and `toLowerCase().includes('k')`. */
  function FlagsOf(text: string): (f: Flags)
    ensures (forall k :: 0 <= k < |text| ==> IsDigit(text[k])) ==> f == Flags(false, false, false, false)
  {
    Flags('%' in text, '+' in text, Peso in text, 'k' in text || 'K' in text || KelvinSign in text)
  }

  /** The precedence of the frame formats: peso with kilo, peso, percent, plus, kilo, plain. */
  function StyleOf(f: Flags): (s: Style)
    ensures s == CurrencyKilo <==> f.currency && f.kilo
    ensures s == Currency <==> f.currency && !f.kilo
    ensures s == Percent <==> !f.currency && f.percent
    ensures s == Plus <==> !f.currency && !f.percent && f.plus
    ensures s == Kilo <==> !f.currency && !f.percent && !f.plus && f.kilo
    ensures s == Plain <==> !f.currency && !f.percent && !f.plus && !f.kilo
  {
    if f.currency && f.kilo then CurrencyKilo
    else if f.currency then Currency
    else if f.percent then Percent
    else if f.plus then Plus
    else if f.kilo then Kilo
    else Plain
  }

  /** The text of an intermediate frame showing `v`. */
  function Render(style: Style, v: nat): (r: string)
    ensures |NatToString(v)| <= |r| <= |NatToString(v)| + 2
  {
    var n := NatToString(v);
    match style
    case CurrencyKilo => [Peso] + n + "k"
    case Currency => [Peso] + n
    case Percent => n + "%"
    case Plus => n + "+"
    case Kilo => n + "k"
    case Plain => n
  }

  /** What one counter element animates: its trimmed text, the target and the style of its frames. */
  datatype Counter = Counter(original: string, target: nat, style: Style)

  /**
   * Reads a counter's text content: the target is the number formed by all
   * the digits of the trimmed text; a text without digits (`parseInt` gives
   * `NaN`) is not a counter.
   */
  function ParseCounter(text: string): (r: Option<Counter>)
    ensures r.None? <==> Digits(text) == []
    ensures r.Some? ==> r.value.target == DecimalValue(Digits(text)) && |r.value.original| <= |text|
  {
    DigitsOfTrim(text);
    var finalText := Trim(text);
    var digits := Digits(finalText);
    if digits == [] then None
    else Some(Counter(finalText, DecimalValue(digits), StyleOf(FlagsOf(finalText))))
  }

  function Pow4(x: int): int {
    x * x * x * x
  }

  lemma MulMono(a: int, b: int, c: int, d: int)
    requires 0 <= a <= b && 0 <= c <= d
    ensures 0 <= a * c <= b * d
  {
    assert a * c <= b * c by {
      assert (b - a) * c >= 0;
    }
    assert b * c <= b * d by {
      assert b * (d - c) >= 0;
    }
  }

  lemma Pow4Mono(a: int, b: int)
    requires 0 <= a <= b
    ensures 0 <= Pow4(a) <= Pow4(b)
  {
    MulMono(a, b, a, b);
    MulMono(a * a, b * b, a, b);
    MulMono(a * a * a, b * b * b, a, b);
  }

  lemma DivMono(x: int, y: int, d: int)
    requires 0 <= x <= y && d > 0
    ensures x / d <= y / d
  {
    if x / d > y / d {
      assert d * (x / d) >= d * (y / d + 1) by {
        MulMono(d, d, y / d + 1, x / d);
      }
      assert false;
    }
  }

  /**
   * The value a frame shows `elapsed` milliseconds in:
   * `floor(target * (1 - (1 - p)^4))` with `p = min(elapsed / Duration, 1)`,
   * computed exactly.
   */
  function FrameValue(target: nat, elapsed: nat): (v: nat)
    ensures v <= target
  {
    if elapsed >= Duration then target
    else
      var den, rest := Pow4(Duration), Pow4(Duration - elapsed);
      Pow4Mono(Duration - elapsed, Duration);
      MulMono(target, target, den - rest, den);
      DivMono(target * (den - rest), target * den, den);
      target * (den - rest) / den
  }

  /** Frames never go backwards: a later frame shows at least the value of an earlier one. */
  lemma FrameValueMonotone(target: nat, e1: nat, e2: nat)
    requires e1 <= e2
    ensures FrameValue(target, e1) <= FrameValue(target, e2)
  {
    if e2 < Duration {
      var den := Pow4(Duration);
      var r1, r2 := Pow4(Duration - e1), Pow4(Duration - e2);
      Pow4Mono(Duration - e2, Duration - e1);
      Pow4Mono(Duration - e1, Duration);
      MulMono(target, target, den - r1, den - r2);
      DivMono(target * (den - r1), target * (den - r2), den);
    }
  }

  /** The animation starts at 0 and has reached the target once the duration is over. */
  lemma FrameValueEnds(target: nat, elapsed: nat)
    ensures FrameValue(target, 0) == 0
    ensures elapsed >= Duration ==> FrameValue(target, elapsed) == target
  {
  }

  /** The text a counter shows after the frame at `elapsed`: the last frame puts the original text back. */
  function FrameText(c: Counter, elapsed: nat): (r: string)
    ensures elapsed < Duration ==> ParseCounter(r) == Some(Counter(r, FrameValue(c.target, elapsed), c.style))
  {
    if elapsed >= Duration then c.original
    else
      RenderRoundTrip(c.style, FrameValue(c.target, elapsed));
      Render(c.style, FrameValue(c.target, elapsed))
  }

  /** What a counter element shows once the animation has started: unchanged when it has no digits, else its first frame. */
  function StartText(text: string): string {
    match ParseCounter(text)
    case None => text
    case Some(c) => FrameText(c, 0)
  }

  /** An element is skipped exactly when its text holds no digit at all. */
  lemma SkippedIffNoDigit(text: string)
    ensures ParseCounter(text).None? <==> forall k :: 0 <= k < |text| ==> !IsDigit(text[k])
  {
    DigitsEmptyIff(text);
  }

  /** A frame has no whitespace at either end, so trimming it changes nothing. */
  lemma RenderTrimmed(style: Style, v: nat)
    ensures Trim(Render(style, v)) == Render(style, v)
  {
    var n := NatToString(v);
    var r := Render(style, v);
    assert IsDigit(n[0]) && IsDigit(n[|n| - 1]);
    assert r[0] == Peso || r[0] == n[0];
    assert r[|r| - 1] in {'k', '%', '+', n[|n| - 1]};
    TrimNoOp(r);
  }

  /** Digits framed by characters that are not digits are kept on their own. */
  lemma DigitsAround(pre: string, n: string, post: string)
    requires forall k :: 0 <= k < |pre| ==> !IsDigit(pre[k])
    requires forall k :: 0 <= k < |n| ==> IsDigit(n[k])
    requires forall k :: 0 <= k < |post| ==> !IsDigit(post[k])
    ensures Digits(pre + n + post) == n
  {
    DigitsOfNonDigits(pre);
    DigitsOfDigits(n);
    DigitsOfNonDigits(post);
    DigitsAppend(pre, n);
    DigitsAppend(pre + n, post);
  }

  /** The digits of a frame are exactly the digits of its value. */
  lemma RenderDigits(style: Style, v: nat)
    ensures Digits(Render(style, v)) == NatToString(v)
  {
    var n := NatToString(v);
    match style
    case CurrencyKilo =>
      DigitsAround([Peso], n, "k");
    case Currency =>
      assert Render(style, v) == [Peso] + n + [];
      DigitsAround([Peso], n, []);
    case Percent =>
      assert Render(style, v) == [] + n + "%";
      DigitsAround([], n, "%");
    case Plus =>
      assert Render(style, v) == [] + n + "+";
      DigitsAround([], n, "+");
    case Kilo =>
      assert Render(style, v) == [] + n + "k";
      DigitsAround([], n, "k");
    case Plain =>
      assert Render(style, v) == [] + n + [];
      DigitsAround([], n, []);
  }

  /** The flags of a frame select the style it was rendered with. */
  lemma RenderStyle(style: Style, v: nat)
    ensures StyleOf(FlagsOf(Render(style, v))) == style
  {
    var n := NatToString(v);
    assert forall k :: 0 <= k < |n| ==> IsDigit(n[k]);
    assert '%' !in n && '+' !in n && Peso !in n && 'k' !in n && 'K' !in n && KelvinSign !in n;
  }

  /** Every frame reads back as a counter with the same value and style. */
  lemma RenderRoundTrip(style: Style, v: nat)
    ensures ParseCounter(Render(style, v)) == Some(Counter(Render(style, v), v, style))
  {
    RenderTrimmed(style, v);
    RenderDigits(style, v);
    RenderStyle(style, v);
    DecimalRoundTrip(v);
  }

  /** A counter's last frame is its trimmed text, whatever its value and style. */
  lemma LastFrameIsOriginal(text: string, elapsed: nat)
    requires ParseCounter(text).Some? && elapsed >= Duration
    ensures FrameText(ParseCounter(text).value, elapsed) == Trim(text)
  {
  }

  /** The group of counter elements and the latch they share. */
  class CounterGroup {
    /** Set by the first `AnimateCounters` call; never cleared. */
    var hasAnimated: bool
    /** The text content of each counter element. */
    var texts: seq<string>
    /** For each element, the animation whose next frame is pending, if any. */
    var running: seq<Option<Counter>>

    ghost predicate Valid()
      reads this
    {
      && |running| == |texts|
      && (!hasAnimated ==> forall i :: 0 <= i < |running| ==> running[i].None?)
    }

    constructor (elements: seq<string>)
      ensures Valid() && !hasAnimated
      ensures texts == elements && running == seq(|elements|, _ => None)
    {
      hasAnimated := false;
      texts := elements;
      running := seq(|elements|, _ => None);
    }

    /**
     * `animateCounters`: does nothing once the latch is set; otherwise sets
     * it, parses every element and renders the first frame of each counter.
     */
    method AnimateCounters()
      requires Valid()
      modifies this
      ensures Valid() && hasAnimated
      ensures old(hasAnimated) ==> texts == old(texts) && running == old(running)
      ensures !old(hasAnimated) ==> |texts| == |old(texts)|
      ensures !old(hasAnimated) ==> forall i :: 0 <= i < |texts| ==>
        running[i] == ParseCounter(old(texts)[i]) && texts[i] == StartText(old(texts)[i])
    {
      if hasAnimated {
        return;
      }
      hasAnimated := true;
      var i := 0;
      while i < |texts|
        invariant hasAnimated && 0 <= i <= |texts| == |old(texts)| == |running|
        invariant forall k :: 0 <= k < i ==> running[k] == ParseCounter(old(texts)[k]) && texts[k] == StartText(old(texts)[k])
        invariant forall k :: i <= k < |texts| ==> running[k].None? && texts[k] == old(texts)[k]
      {
        ghost var text := texts[i];
        var finalText := Trim(texts[i]);
        var digits := Digits(finalText);
        if digits != [] {
          var c := Counter(finalText, DecimalValue(digits), StyleOf(FlagsOf(finalText)));
          assert ParseCounter(text) == Some(c);
          running := running[i := Some(c)];
          texts := texts[i := FrameText(c, 0)];
        } else {
          assert ParseCounter(text) == None;
        }
        i := i + 1;
      }
    }

    /**
     * One animation frame of element `i`, `elapsed` milliseconds after its
     * start: renders the eased value; at the end of the duration puts the
     * original text back and schedules no further frame.
     */
    method Tick(i: nat, elapsed: nat)
      requires Valid() && i < |texts|
      modifies this
      ensures Valid() && hasAnimated == old(hasAnimated)
      ensures old(running[i]).None? ==> texts == old(texts) && running == old(running)
      ensures old(running[i]).Some? ==>
        && texts == old(texts)[i := FrameText(old(running[i]).value, elapsed)]
        && running == old(running)[i := if elapsed >= Duration then None else old(running[i])]
    {
      match running[i]
      case None =>
      case Some(c) =>
        texts := texts[i := Render(c.style, FrameValue(c.target, elapsed))];
        if elapsed >= Duration {
          texts := texts[i := c.original];
          running := running[i := None];
        }
    }
  }

  lemma TrimOfExample()
    ensures Trim(" 1,200+ ") == "1,200+"
  {
    TrimPadded("1,200+");
  }

  lemma DecimalOfExample()
    ensures DecimalValue("1200") == 1200
  {
    assert "1200"[..3] == "120";
    assert "120"[..2] == "12";
    assert "12"[..1] == "1";
  }

  /** `ParseCounter` on a text whose trim and digits are known. */
  lemma ParseCounterOf(text: string, trimmed: string, digits: string)
    requires Trim(text) == trimmed && Digits(trimmed) == digits && digits != []
    ensures ParseCounter(text) == Some(Counter(trimmed, DecimalValue(digits), StyleOf(FlagsOf(trimmed))))
  {
  }

  lemma DigitsOfExample()
    ensures Digits("1,200+") == "1200"
  {
  }

  lemma StyleOfExample()
    ensures StyleOf(FlagsOf("1,200+")) == Plus
  {
  }

  /** " 1,200+ " counts up to 1200, the number formed by all the digits of its trimmed text, in the plus style. */
  lemma AllDigitsConcatenated()
    ensures ParseCounter(" 1,200+ ") == Some(Counter("1,200+", 1200, Plus))
  {
    TrimOfExample();
    DigitsOfExample();
    DecimalOfExample();
    StyleOfExample();
    ParseCounterOf(" 1,200+ ", "1,200+", "1200");
  }

  lemma PesoTextParts()
    ensures Trim("\U{20B1}50K") == "\U{20B1}50K"
    ensures Digits("\U{20B1}50K") == "50"
  {
    assert TrimStart("\U{20B1}50K") == "\U{20B1}50K";
    assert TrimEnd("\U{20B1}50K") == "\U{20B1}50K";
  }

  lemma PesoTextStyle()
    ensures StyleOf(FlagsOf("\U{20B1}50K")) == CurrencyKilo
    ensures DecimalValue("50") == 50
  {
    assert "50"[..1] == "5";
    assert FlagsOf("\U{20B1}50K") == Flags(false, false, true, true) by {
      assert "\U{20B1}50K"[0] == Peso && "\U{20B1}50K"[3] == 'K';
    }
  }

  lemma PesoFiftyK()
    ensures ParseCounter("\U{20B1}50K") == Some(Counter("\U{20B1}50K", 50, CurrencyKilo))
  {
    PesoTextParts();
    PesoTextStyle();
    ParseCounterOf("\U{20B1}50K", "\U{20B1}50K", "50");
  }

  /**
   * "₱50K" animates through frames written "₱Nk" (the kilo flag is read
   * case-insensitively and written lower-case), so even the frame showing
   * the target differs from the original; the last frame restores "₱50K".
   */
  lemma PesoKiloEndsAsWritten(elapsed: nat)
    requires elapsed >= Duration
    ensures ParseCounter("\U{20B1}50K") == Some(Counter("\U{20B1}50K", 50, CurrencyKilo))
    ensures Render(CurrencyKilo, 50) == "\U{20B1}50k" != "\U{20B1}50K"
    ensures FrameText(Counter("\U{20B1}50K", 50, CurrencyKilo), elapsed) == "\U{20B1}50K"
  {
    PesoFiftyK();
    assert NatToString(50) == "50" by { assert NatToString(5) == "5"; }
    assert "\U{20B1}50k"[3] != "\U{20B1}50K"[3];
  }

  lemma PercentTextParts()
    ensures Trim("98%") == "98%" && Digits("98%") == "98"
    ensures DecimalValue("98") == 98 && StyleOf(FlagsOf("98%")) == Percent
  {
    assert TrimStart("98%") == "98%";
    assert TrimEnd("98%") == "98%";
    assert "98"[..1] == "9";
  }

  /** "98%": frames show values that never decrease and never pass 98, and the last frame is "98%". */
  lemma NinetyEightPercent(e1: nat, e2: nat)
    requires e1 <= e2
    ensures ParseCounter("98%") == Some(Counter("98%", 98, Percent))
    ensures FrameValue(98, e1) <= FrameValue(98, e2) <= 98
    ensures FrameText(Counter("98%", 98, Percent), Duration) == "98%"
  {
    PercentTextParts();
    ParseCounterOf("98%", "98%", "98");
    FrameValueMonotone(98, e1, e2);
  }

  /** The Kelvin sign sets the kilo flag, since it lower-cases to 'k'. */
  lemma KelvinSignIsKilo()
    ensures StyleOf(FlagsOf("5" + [KelvinSign])) == Kilo
  {
    var t := "5" + [KelvinSign];
    assert t[1] == KelvinSign;
    assert '%' !in t && '+' !in t && Peso !in t;
  }
}
