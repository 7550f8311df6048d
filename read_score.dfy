/**
 * The score reader of the screen scanner (scanner/superReadScore.py). The white
 * pixels of the score area form a 0/255 mask; three digit slots are cut out of
 * it, each slot is classified as "empty" (almost no white pixels) or as the
 * digit template it differs from in the fewest pixels, and the names read left
 * to right are turned into the score.
 */
module ReadScore {
  import opened Common
  import opened BlockRatios

  /** SLOT_STARTS, DIGIT_W and EMPTY_FRAC_THRESH. */
  const SLOT_STARTS: seq<nat> := [0, 13, 26]
  const DIGIT_W: nat := 13
  const EMPTY_FRAC_THRESH: real := 0.02

  /** The name a slot gets when it holds no digit. */
  const EMPTY: string := "empty"

  /** One entry of `templates_prepped`: a name and an h x digit_w 0/255 image. */
  datatype Template = Template(name: string, image: Image)

  /** Every template has the slots' shape, as `bitwise_xor` needs. */
  predicate Fits(templates: seq<Template>, h: nat, dw: nat)
  {
    forall i :: 0 <= i < |templates| ==> UInt8Image(templates[i].image, h, dw)
  }

  // ---------------------------------------------------------------------------
  // split_slots_from_mask
  // ---------------------------------------------------------------------------

  /** Columns s .. s + dw - 1 of the mask, reading zero past its right edge. */
  function Window(mask: Image, w: nat, s: nat, dw: nat): (slot: Image)
    requires UInt8Image(mask, |mask|, w)
    ensures UInt8Image(slot, |mask|, dw)
  {
    seq(|mask|, y requires 0 <= y < |mask| => seq(dw, x requires 0 <= x < dw => if s + x < w then mask[y][s + x] else 0))
  }

  function Zeros(n: nat): (z: seq<int>)
    ensures |z| == n && forall i :: 0 <= i < n ==> z[i] == 0
  {
    seq(n, _ => 0)
  }

  function Min(a: int, b: int): int
  {
    if a < b then a else b
  }

  /**
   * One slot as `split_slots_from_mask` cuts it: all zeros when it starts at or
   * past the right edge, else the columns s .. min(s + dw, w) - 1, padded with
   * zero columns when fewer than dw.
   */
  function Crop(mask: Image, w: nat, s: nat, dw: nat): (crop: Image)
    requires UInt8Image(mask, |mask|, w)
  {
    if s >= w then seq(|mask|, _ => Zeros(dw))
    else
      var e := Min(s + dw, w);
      var crop := seq(|mask|, y requires 0 <= y < |mask| => mask[y][s..e]);
      if e - s < dw then seq(|mask|, y requires 0 <= y < |mask| => crop[y] + Zeros(dw - (e - s)))
      else crop
  }

  /** The three branches of the crop produce the window of the mask at s. */
  lemma CropIsWindow(mask: Image, w: nat, s: nat, dw: nat)
    requires UInt8Image(mask, |mask|, w)
    ensures Crop(mask, w, s, dw) == Window(mask, w, s, dw)
  {
    var c, v := Crop(mask, w, s, dw), Window(mask, w, s, dw);
    forall y | 0 <= y < |mask|
      ensures c[y] == v[y]
    {
      if s >= w {
        assert c[y] == Zeros(dw);
      } else {
        var e := Min(s + dw, w);
        var row := mask[y][s..e];
        if e - s < dw {
          assert c[y] == row + Zeros(dw - (e - s));
        } else {
          assert c[y] == row;
        }
      }
      assert |c[y]| == dw;
      forall x | 0 <= x < dw
        ensures c[y][x] == v[y][x]
      {
      }
    }
  }

  /** A slot starting at or past the right edge of the mask is all zeros. */
  lemma WindowPastEdge(mask: Image, w: nat, s: nat, dw: nat, y: nat)
    requires UInt8Image(mask, |mask|, w) && w <= s && y < |mask|
    ensures Window(mask, w, s, dw)[y] == Zeros(dw)
  {
  }

  /**
   * A slot reaching past the right edge holds the mask's own columns s .. w - 1
   * followed by zeros; one inside the mask holds columns s .. s + dw - 1.
   */
  lemma WindowColumns(mask: Image, w: nat, s: nat, dw: nat, y: nat)
    requires UInt8Image(mask, |mask|, w) && s < w && y < |mask|
    ensures s + dw > w ==> Window(mask, w, s, dw)[y] == mask[y][s..] + Zeros(s + dw - w)
    ensures s + dw <= w ==> Window(mask, w, s, dw)[y] == mask[y][s..s + dw]
  {
    if s + dw > w {
      assert |mask[y][s..] + Zeros(s + dw - w)| == dw;
    }
  }

  /**
   * `split_slots_from_mask`: exactly three slots of h x dw, the i-th the window
   * of the mask at SLOT_STARTS[i].
   */
  method SplitSlots(mask: Image, w: nat, dw: nat) returns (out: seq<Image>)
    requires UInt8Image(mask, |mask|, w)
    ensures |out| == |SLOT_STARTS| == 3
    ensures forall i :: 0 <= i < 3 ==> out[i] == Window(mask, w, SLOT_STARTS[i], dw)
  {
    out := [];
    for i := 0 to |SLOT_STARTS|
      invariant |out| == i
      invariant forall j :: 0 <= j < i ==> out[j] == Window(mask, w, SLOT_STARTS[j], dw)
    {
      var crop := Crop(mask, w, SLOT_STARTS[i], dw);
      CropIsWindow(mask, w, SLOT_STARTS[i], dw);
      out := out + [crop];
    }
  }

  // ---------------------------------------------------------------------------
  // Classifying a slot
  // ---------------------------------------------------------------------------

  /** `countNonZero` of an h x w image of non-negative pixels. */
  function CountNonZero(m: Image, h: nat, w: nat): nat
    requires Rect(m, h, w)
  {
    |Lit(m, 1, 0, h, 0, w)|
  }

  /** Bitwise XOR of two non-negative integers, from the lowest bit up. */
  function BitXor(a: nat, b: nat): nat
    decreases a + b
  {
    if a == 0 && b == 0 then 0 else 2 * BitXor(a / 2, b / 2) + (if a % 2 == b % 2 then 0 else 1)
  }

  /** `bitwise_xor` of two h x w uint8 images. */
  function Xor(a: Image, b: Image, h: nat, w: nat): (d: Image)
    requires UInt8Image(a, h, w) && UInt8Image(b, h, w)
    ensures Rect(d, h, w)
  {
    seq(h, y requires 0 <= y < h => seq(w, x requires 0 <= x < w => BitXor(a[y][x], b[y][x])))
  }

  /** The pixels where two images differ. */
  function Differ(a: Image, b: Image, h: nat, w: nat): set<(int, int)>
    requires Rect(a, h, w) && Rect(b, h, w)
  {
    set y, x | 0 <= y < h && 0 <= x < w && a[y][x] != b[y][x] :: (y, x)
  }

  /** `countNonZero(bitwise_xor(slot, t))`: the number of mismatched pixels. */
  function Mismatches(slot: Image, t: Image, h: nat, w: nat): nat
    requires UInt8Image(slot, h, w) && UInt8Image(t, h, w)
  {
    CountNonZero(Xor(slot, t, h, w), h, w)
  }

  /** The XOR of two uint8 pixels is nonzero exactly where they differ. */
  lemma MismatchesDiffer(slot: Image, t: Image, h: nat, w: nat)
    requires UInt8Image(slot, h, w) && UInt8Image(t, h, w)
    ensures Mismatches(slot, t, h, w) == |Differ(slot, t, h, w)|
  {
    var d := Xor(slot, t, h, w);
    forall y, x | 0 <= y < h && 0 <= x < w
      ensures d[y][x] >= 1 <==> slot[y][x] != t[y][x]
    {
      BitXorZero(slot[y][x], t[y][x]);
    }
    assert Lit(d, 1, 0, h, 0, w) == Differ(slot, t, h, w);
  }

  /** Two integers have a nonzero XOR exactly when they differ. */
  lemma {:induction false} BitXorZero(a: nat, b: nat)
    ensures BitXor(a, b) >= 1 <==> a != b
    decreases a + b
  {
    if a != 0 || b != 0 {
      BitXorZero(a / 2, b / 2);
    }
  }

  /**
   * The index of the first template with the fewest mismatches: no template
   * has fewer, and every one before it has more.
   */
  function FirstFewest(slot: Image, h: nat, w: nat, ts: seq<Template>): (k: nat)
    requires UInt8Image(slot, h, w) && Fits(ts, h, w) && |ts| > 0
    ensures k < |ts|
    ensures forall j :: 0 <= j < |ts| ==> Mismatches(slot, ts[k].image, h, w) <= Mismatches(slot, ts[j].image, h, w)
    ensures forall j :: 0 <= j < k ==> Mismatches(slot, ts[k].image, h, w) < Mismatches(slot, ts[j].image, h, w)
  {
    if |ts| == 1 then 0
    else
      var k := FirstFewest(slot, h, w, ts[..|ts| - 1]);
      if Mismatches(slot, ts[|ts| - 1].image, h, w) < Mismatches(slot, ts[k].image, h, w) then |ts| - 1 else k
  }

  /** The score `1.0 - mismatched / slot.size` of a template. */
  function Score(slot: Image, t: Image, h: nat, w: nat): real
    requires UInt8Image(slot, h, w) && UInt8Image(t, h, w) && h * w > 0
  {
    1.0 - Mismatches(slot, t, h, w) as real / (h * w) as real
  }

  /** The score falls as the mismatches grow, and lies in [0, 1]. */
  lemma ScoreOrder(slot: Image, t: Image, u: Image, h: nat, w: nat)
    requires UInt8Image(slot, h, w) && UInt8Image(t, h, w) && UInt8Image(u, h, w) && h * w > 0
    ensures Score(slot, t, h, w) > Score(slot, u, h, w) <==> Mismatches(slot, t, h, w) < Mismatches(slot, u, h, w)
    ensures 0.0 <= Score(slot, t, h, w) <= 1.0
  {
    LitBound(Xor(slot, t, h, w), 1, 0, h, 0, w);
    RatioOrder(Mismatches(slot, t, h, w), Mismatches(slot, u, h, w), h * w);
  }

  lemma RatioOrder(n: nat, m: nat, size: nat)
    requires size > 0
    ensures 1.0 - n as real / size as real > 1.0 - m as real / size as real <==> n < m
    ensures n <= size ==> 0.0 <= 1.0 - n as real / size as real <= 1.0
  {
    DivOrder(n as real, m as real, size as real);
    DivOrder(n as real, size as real, size as real);
    DivOrder(0.0, n as real, size as real);
  }

  lemma DivOrder(a: real, b: real, s: real)
    requires s > 0.0
    ensures a / s < b / s <==> a < b
    ensures a / s <= b / s <==> a <= b
    ensures s / s == 1.0
  {
    assert a / s * s == a && b / s * s == b;
  }

  /** Under 2% of the pixels set, `frac < EMPTY_FRAC_THRESH`, means fewer than one in fifty. */
  lemma BelowThreshold(n: nat, size: nat)
    requires size > 0
    ensures n as real / size as real < EMPTY_FRAC_THRESH <==> 50 * n < size
  {
    DivOrder(n as real, size as real / 50.0, size as real);
    assert size as real / 50.0 / size as real == 0.02;
  }

  /**
   * The template loop of `capture`: the best name is the one of the first
   * template with the fewest mismatches, or None when there are no templates.
   */
  method BestDigit(slot: Image, h: nat, w: nat, templates: seq<Template>) returns (best: Option<string>)
    requires UInt8Image(slot, h, w) && Fits(templates, h, w) && h * w > 0
    ensures templates == [] ==> best == None
    ensures templates != [] ==> best == Some(templates[FirstFewest(slot, h, w, templates)].name)
  {
    var bestScore := -1.0;
    best := None;
    for i := 0 to |templates|
      invariant i == 0 ==> best == None && bestScore == -1.0
      invariant i > 0 ==> var k := FirstFewest(slot, h, w, templates[..i]);
        best == Some(templates[k].name) && bestScore == Score(slot, templates[k].image, h, w)
    {
      var t := templates[i].image;
      var mismatched := Mismatches(slot, t, h, w);
      var score := 1.0 - mismatched as real / (h * w) as real;
      assert templates[..i + 1][..i] == templates[..i];
      if i > 0 {
        ScoreOrder(slot, t, templates[FirstFewest(slot, h, w, templates[..i])].image, h, w);
      } else {
        ScoreOrder(slot, t, t, h, w);
      }
      if score > bestScore {
        bestScore := score;
        best := Some(templates[i].name);
      }
    }
    assert templates[..|templates|] == templates;
  }

  /**
   * The name `capture` gives a slot: "empty" when under 2% of its pixels are
   * set, else the name of the first template with the fewest mismatches
   * ("empty" when there are no templates).
   */
  function Classify(slot: Image, h: nat, w: nat, templates: seq<Template>): string
    requires UInt8Image(slot, h, w) && Fits(templates, h, w) && h * w > 0
  {
    if CountNonZero(slot, h, w) as real / (h * w) as real < EMPTY_FRAC_THRESH then EMPTY
    else if templates == [] then EMPTY
    else templates[FirstFewest(slot, h, w, templates)].name
  }

  /**
   * A slot is read as empty exactly when fewer than one in fifty of its pixels
   * are set (when no template is itself named "empty" and one exists); otherwise
   * it gets a template's name.
   */
  lemma ClassifyEmpty(slot: Image, h: nat, w: nat, templates: seq<Template>)
    requires UInt8Image(slot, h, w) && Fits(templates, h, w) && h * w > 0
    requires templates != [] && forall i :: 0 <= i < |templates| ==> templates[i].name != EMPTY
    ensures Classify(slot, h, w, templates) == EMPTY <==> 50 * CountNonZero(slot, h, w) < h * w
    ensures Classify(slot, h, w, templates) != EMPTY ==>
      exists i :: 0 <= i < |templates| && Classify(slot, h, w, templates) == templates[i].name
  {
    BelowThreshold(CountNonZero(slot, h, w), h * w);
  }

  /** The classification loop of `capture`: one name per slot, in slot order. */
  method Recognize(slots: seq<Image>, h: nat, w: nat, templates: seq<Template>) returns (recognized: seq<string>)
    requires forall i :: 0 <= i < |slots| ==> UInt8Image(slots[i], h, w)
    requires Fits(templates, h, w) && h * w > 0
    ensures |recognized| == |slots|
    ensures forall i :: 0 <= i < |slots| ==> recognized[i] == Classify(slots[i], h, w, templates)
  {
    recognized := [];
    for i := 0 to |slots|
      invariant |recognized| == i
      invariant forall j :: 0 <= j < i ==> recognized[j] == Classify(slots[j], h, w, templates)
    {
      var slot := slots[i];
      var nonzero := CountNonZero(slot, h, w);
      var frac := nonzero as real / (h * w) as real;
      if frac < EMPTY_FRAC_THRESH {
        recognized := recognized + [EMPTY];
      } else {
        var best := BestDigit(slot, h, w, templates);
        recognized := recognized + [if best.Some? then best.value else EMPTY];
      }
    }
  }

  // ---------------------------------------------------------------------------
  // From names to the score
  // ---------------------------------------------------------------------------

  /** The names with the leading "empty" ones removed. */
  function StripEmpties(names: seq<string>): (r: seq<string>)
  {
    if names != [] && names[0] == EMPTY then StripEmpties(names[1..]) else names
  }

  /**
   * Stripping keeps a suffix: everything dropped was "empty", and what is left
   * is empty or starts with another name.
   */
  lemma {:induction false} StripEmptiesSpec(names: seq<string>)
    ensures var r := StripEmpties(names);
      |r| <= |names| && r == names[|names| - |r|..]
      && (forall i :: 0 <= i < |names| - |r| ==> names[i] == EMPTY)
      && (r == [] || r[0] != EMPTY)
  {
    if names != [] && names[0] == EMPTY {
      StripEmptiesSpec(names[1..]);
    }
  }

  /** `while recognized and recognized[0] == "empty": recognized.pop(0)`. */
  method StripLeadingEmpties(recognized: seq<string>) returns (r: seq<string>)
    ensures r == StripEmpties(recognized)
  {
    r := recognized;
    while r != [] && r[0] == EMPTY
      invariant StripEmpties(r) == StripEmpties(recognized)
      decreases |r|
    {
      r := r[1..];
    }
  }

  predicate IsDigitChar(ch: char)
  {
    '0' as int <= ch as int <= '9' as int
  }

  /** `str.isdigit()` on the names built here: non-empty and all decimal digits. */
  predicate IsDigitString(s: string)
  {
    |s| > 0 && forall i :: 0 <= i < |s| ==> IsDigitChar(s[i])
  }

  /** `"".join(names)`. */
  function Join(names: seq<string>): string
  {
    if names == [] then "" else Join(names[..|names| - 1]) + names[|names| - 1]
  }

  /** The number a string of decimal digits spells, most significant first. */
  function DigitsValue(s: string): nat
    requires forall i :: 0 <= i < |s| ==> IsDigitChar(s[i])
  {
    if s == [] then 0 else DigitsValue(s[..|s| - 1]) * 10 + DigitOf(s[|s| - 1])
  }

  function DigitOf(ch: char): (d: nat)
    requires IsDigitChar(ch)
    ensures d < 10
  {
    ch as int - '0' as int
  }

  /**
   * Python's `int(s)` on the strings this code joins (decimal digits and the
   * letters of "empty"): the value of a non-empty digit string, else ValueError.
   */
  function ParseInt(s: string): Result<nat>
  {
    if IsDigitString(s) then Success(DigitsValue(s)) else Failure(ValueError)
  }

  /** `[d for d in recognized if d is not None and d.isdigit()]`. */
  function DigitsOnly(names: seq<string>): (r: seq<string>)
    ensures forall i :: 0 <= i < |r| ==> IsDigitString(r[i])
  {
    if names == [] then []
    else DigitsOnly(names[..|names| - 1]) + (if IsDigitString(names[|names| - 1]) then [names[|names| - 1]] else [])
  }

  /**
   * The end of `capture`: 0 for no names; else `int` of the joined names, and
   * when that raises, `int` of the joined digit names (0 when there are none).
   */
  function ReadValue(recognized: seq<string>): Result<nat>
  {
    if recognized == [] then Success(0)
    else match ParseInt(Join(recognized))
      case Success(n) => Success(n)
      case Failure(_) =>
        var digits := DigitsOnly(recognized);
        if digits == [] then Success(0) else ParseInt(Join(digits))
  }

  /** The joined string is all digits exactly when every part is. */
  lemma {:induction false} JoinDigits(names: seq<string>)
    ensures (forall i :: 0 <= i < |Join(names)| ==> IsDigitChar(Join(names)[i])) <==>
      (forall k, i :: 0 <= k < |names| && 0 <= i < |names[k]| ==> IsDigitChar(names[k][i]))
    ensures |Join(names)| == 0 <==> forall k :: 0 <= k < |names| ==> names[k] == []
  {
    if names != [] {
      var p, s := names[..|names| - 1], names[|names| - 1];
      JoinDigits(p);
      var j := Join(p);
      assert Join(names) == j + s;
      assert forall i :: 0 <= i < |s| ==> (j + s)[|j| + i] == s[i];
      assert forall i :: 0 <= i < |j| ==> (j + s)[i] == j[i];
      assert forall k :: 0 <= k < |p| ==> names[k] == p[k];
    }
  }

  /** Dropping the names that are not digit strings keeps a digit-only list as it is. */
  lemma {:induction false} DigitsOnlyKeeps(names: seq<string>)
    requires forall k :: 0 <= k < |names| ==> IsDigitString(names[k])
    ensures DigitsOnly(names) == names
  {
    if names != [] {
      DigitsOnlyKeeps(names[..|names| - 1]);
    }
  }

  /**
   * Whatever "empty" slots a reading has and wherever they are, the score is
   * the number its digit names spell in order (0 when there are none); the
   * fallback `int` never raises.
   */
  lemma ReadValueSpells(recognized: seq<string>)
    requires forall k :: 0 <= k < |recognized| ==> recognized[k] == EMPTY || IsDigitString(recognized[k])
    ensures var digits := Join(DigitsOnly(recognized));
      (forall i :: 0 <= i < |digits| ==> IsDigitChar(digits[i]))
      && ReadValue(recognized) == Success(DigitsValue(digits))
  {
    var digits := DigitsOnly(recognized);
    JoinDigits(digits);
    if recognized != [] {
      JoinDigits(recognized);
      if forall k :: 0 <= k < |recognized| ==> IsDigitString(recognized[k]) {
        DigitsOnlyKeeps(recognized);
        assert |recognized[0]| > 0;
      } else {
        var k :| 0 <= k < |recognized| && !IsDigitString(recognized[k]);
        assert recognized[k] == EMPTY && !IsDigitChar(recognized[k][0]);
        if digits != [] {
          assert |digits[0]| > 0;
        }
      }
    }
  }

  /** The digit names of a reading are those left after stripping the leading "empty" ones. */
  lemma {:induction false} StripKeepsDigits(names: seq<string>)
    ensures DigitsOnly(StripEmpties(names)) == DigitsOnly(names)
  {
    if names != [] && names[0] == EMPTY {
      StripKeepsDigits(names[1..]);
      DigitsOnlyCons(names[0], names[1..]);
      assert names == [names[0]] + names[1..];
      assert !IsDigitChar(EMPTY[0]);
    }
  }

  lemma {:induction false} DigitsOnlyCons(s: string, rest: seq<string>)
    ensures DigitsOnly([s] + rest) == (if IsDigitString(s) then [s] else []) + DigitsOnly(rest)
    decreases |rest|
  {
    if rest != [] {
      var p := rest[..|rest| - 1];
      assert ([s] + rest)[..|rest|] == [s] + p;
      DigitsOnlyCons(s, p);
    } else {
      assert [s][..0] == [];
    }
  }

  /** The slot names `capture` produces for a mask, left to right. */
  function Reading(mask: Image, w: nat, templates: seq<Template>, dw: nat): (names: seq<string>)
    requires UInt8Image(mask, |mask|, w) && Fits(templates, |mask|, dw) && |mask| * dw > 0
    ensures |names| == 3
  {
    seq(3, i requires 0 <= i < 3 => Classify(Window(mask, w, SLOT_STARTS[i], dw), |mask|, dw, templates))
  }

  /**
   * `capture` after the screen grab and colour masking: split, classify,
   * strip the leading empties and read the number.
   */
  method Capture(mask: Image, w: nat, templates: seq<Template>, dw: nat) returns (value: Result<nat>)
    requires UInt8Image(mask, |mask|, w) && Fits(templates, |mask|, dw) && |mask| * dw > 0
    ensures value == ReadValue(StripEmpties(Reading(mask, w, templates, dw)))
  {
    var slots := SplitSlots(mask, w, dw);
    var recognized := Recognize(slots, |mask|, dw, templates);
    assert recognized == Reading(mask, w, templates, dw);
    recognized := StripLeadingEmpties(recognized);
    value := ReadValue(recognized);
  }

  /**
   * With the digit templates of the source (names "0" to "9"), the score read
   * from a mask is the number its non-empty slots spell left to right.
   */
  lemma CaptureSpells(mask: Image, w: nat, templates: seq<Template>, dw: nat)
    requires UInt8Image(mask, |mask|, w) && Fits(templates, |mask|, dw) && |mask| * dw > 0
    requires forall i :: 0 <= i < |templates| ==> IsDigitString(templates[i].name)
    ensures var digits := Join(DigitsOnly(Reading(mask, w, templates, dw)));
      (forall i :: 0 <= i < |digits| ==> IsDigitChar(digits[i]))
      && ReadValue(StripEmpties(Reading(mask, w, templates, dw))) == Success(DigitsValue(digits))
  {
    var names := Reading(mask, w, templates, dw);
    var r := StripEmpties(names);
    StripEmptiesSpec(names);
    StripKeepsDigits(names);
    assert forall k :: 0 <= k < |r| ==> r[k] == names[|names| - |r| + k];
    ReadValueSpells(r);
  }
}
