/**
 * The window selectors: `default_window_selector` of
 * libsegmenter/default_window_selector.py and its legacy twin
 * `defaultWindowSelector` of defaultWindowSelector.py.
 *
 * A selector maps a scheme name and a window length L to a window and a hop
 * size, or raises ValueError. The samples of the Bartlett, Blackman, Kaiser,
 * Hamming and Hann formulas are an input `formula`; only the all-ones
 * rectangular windows are computed here.
 */
module Selectors {
  import opened Samples
  import Frames
  import opened Wrappers

  /** The window formulas whose samples are taken as given. */
  datatype Family = Bartlett | Blackman | Kaiser(beta: nat) | Hamming | Hann

  /** The ValueErrors the selectors raise. */
  datatype SelectError = OddLength | NotMultipleOf4 | NotMultipleOf3 | UnknownName

  datatype Selection = Selection(window: seq<real>, hop: int)

  datatype Result<T> = Ok(value: T) | Err(error: SelectError)

  /** Schemes with 50 percent overlap that reject odd lengths. */
  predicate HalfOverlap(name: string)
  {
    name == "bartlett50" || name == "hamming50" || name == "hann50"
  }

  /** Schemes with 75 percent overlap that need a length divisible by 4. */
  predicate QuarterOverlap(name: string)
  {
    name == "bartlett75" || name == "hamming75" || name == "hann75"
  }

  /** The schemes whose hop the selector checks against the length. */
  predicate Checked(name: string)
  {
    HalfOverlap(name) || QuarterOverlap(name) || name == "blackman"
  }

  predicate IsKaiser(name: string)
  {
    name == "kaiser82" || name == "kaiser85"
  }

  predicate Known(name: string)
  {
    Checked(name) || IsKaiser(name) || name == "rectangular0" || name == "rectangular50"
  }

  /** The formula family behind a checked or Kaiser scheme name. */
  function FamilyOf(name: string): Family
  {
    if name == "bartlett50" || name == "bartlett75" then Bartlett
    else if name == "hamming50" || name == "hamming75" then Hamming
    else if name == "hann50" || name == "hann75" then Hann
    else if name == "blackman" then Blackman
    else if name == "kaiser82" then Kaiser(8)
    else Kaiser(10)
  }

  /** `floor(1.7 * (L - 1) / (beta + 1))` in exact rational arithmetic. */
  function KaiserHop(length: nat, beta: nat): (hop: int)
    ensures hop * (10 * (beta + 1)) <= 17 * (length - 1) < (hop + 1) * (10 * (beta + 1))
  {
    var d := 10 * (beta + 1);
    var x := 17 * (length - 1);
    assert x == (x / d) * d + x % d;
    x / d
  }

  /** The length test of a checked scheme: divisor and error. */
  function Divisor(name: string): nat
  {
    if HalfOverlap(name) then 2 else if QuarterOverlap(name) then 4 else 3
  }

  function DivisorError(name: string): SelectError
  {
    if HalfOverlap(name) then OddLength else if QuarterOverlap(name) then NotMultipleOf4 else NotMultipleOf3
  }

  /** `default_window_selector(window_name, window_length)`. */
  function DefaultWindowSelector(name: string, length: nat, formula: Family -> seq<real>): (r: Result<Selection>)
    ensures !Known(name) ==> r == Err(UnknownName)
    ensures HalfOverlap(name) ==> (r.Ok? <==> length % 2 == 0) && (r.Err? ==> r.error == OddLength)
    ensures QuarterOverlap(name) ==> (r.Ok? <==> length % 4 == 0) && (r.Err? ==> r.error == NotMultipleOf4)
    ensures name == "blackman" ==> (r.Ok? <==> length % 3 == 0) && (r.Err? ==> r.error == NotMultipleOf3)
    ensures Checked(name) && r.Ok? ==> r.value.hop * Divisor(name) == length
    ensures Checked(name) && name != "blackman" && r.Ok? ==> r.value.window == formula(FamilyOf(name))
    ensures name == "blackman" && r.Ok? ==>
              r.value.window == Clamp(formula(Blackman)) && NonNegative(r.value.window)
    ensures IsKaiser(name) ==> r == Ok(Selection(formula(FamilyOf(name)), KaiserHop(length, FamilyOf(name).beta)))
    ensures name == "rectangular0" ==> r == Ok(Selection(Ones(length), length))
    ensures name == "rectangular50" ==>
              r.Ok? && r.value.window == Ones(length) && 2 * r.value.hop <= length < 2 * r.value.hop + 2
  {
    if Checked(name) then
      var d := Divisor(name);
      if length % d != 0 then Err(DivisorError(name))
      else
        var window := if name == "blackman" then Clamp(formula(Blackman)) else formula(FamilyOf(name));
        ClampProperties(formula(Blackman));
        Ok(Selection(window, length / d))
    else if IsKaiser(name) then
      Ok(Selection(formula(FamilyOf(name)), KaiserHop(length, FamilyOf(name).beta)))
    else if name == "rectangular0" then
      Ok(Selection(Ones(length), length))
    else if name == "rectangular50" then
      Ok(Selection(Ones(length), length / 2))
    else
      Err(UnknownName)
  }

  /** Every divisibility-checked scheme yields, for L > 0, a hop with 1 <= hop <= L dividing L. */
  lemma CheckedHopDivides(name: string, length: nat, formula: Family -> seq<real>)
    requires Checked(name) && length > 0
    requires DefaultWindowSelector(name, length, formula).Ok?
    ensures var hop := DefaultWindowSelector(name, length, formula).value.hop;
            1 <= hop <= length && length % hop == 0
  {
    var hop := DefaultWindowSelector(name, length, formula).value.hop;
    var d := Divisor(name);
    assert hop * d == length;
    Frames.MulSign(hop, d);
    Frames.MulAtLeast(hop, d);
    Frames.DivOfMultiple(d, hop, 0);
    assert d * hop + 0 == length;
  }

  /** `defaultWindowSelector(windowName, windowLength)`: no clamp, and no return for rectangular50. */
  function LegacyWindowSelector(name: string, length: nat, formula: Family -> seq<real>): (r: Result<Option<Selection>>)
    ensures !Known(name) ==> r == Err(UnknownName)
    ensures Checked(name) ==> (r.Ok? <==> length % Divisor(name) == 0) && (r.Err? ==> r.error == DivisorError(name))
    ensures Checked(name) && r.Ok? ==>
              r.value.Some? && r.value.value.hop * Divisor(name) == length && r.value.value.window == formula(FamilyOf(name))
    ensures name == "rectangular0" ==> r == Ok(Some(Selection(Ones(length), length)))
    ensures name == "rectangular50" ==> r == Ok(None)
  {
    if Checked(name) then
      var d := Divisor(name);
      if length % d != 0 then Err(DivisorError(name))
      else Ok(Some(Selection(formula(FamilyOf(name)), length / d)))
    else if IsKaiser(name) then
      Ok(Some(Selection(formula(FamilyOf(name)), KaiserHop(length, FamilyOf(name).beta))))
    else if name == "rectangular0" then
      Ok(Some(Selection(Ones(length), length)))
    else if name == "rectangular50" then
      Ok(None)
    else
      Err(UnknownName)
  }

  /** The intended rectangular50 branch of the legacy selector: return the window and hop. */
  function LegacyWindowSelectorCorrected(name: string, length: nat, formula: Family -> seq<real>): (r: Result<Option<Selection>>)
    ensures name == "rectangular50" ==> r == Ok(Some(Selection(Ones(length), length / 2)))
    ensures name != "rectangular50" ==> r == LegacyWindowSelector(name, length, formula)
  {
    if name == "rectangular50" then Ok(Some(Selection(Ones(length), length / 2)))
    else LegacyWindowSelector(name, length, formula)
  }

  /** The new selector's result in the legacy selector's result type. */
  function Lift(r: Result<Selection>): Result<Option<Selection>>
  {
    match r
    case Ok(s) => Ok(Some(s))
    case Err(e) => Err(e)
  }

  /** Apart from blackman and rectangular50 the two selectors agree on the same formulas. */
  lemma SelectorsAgree(name: string, length: nat, formula: Family -> seq<real>)
    requires name != "blackman" && name != "rectangular50"
    ensures LegacyWindowSelector(name, length, formula) == Lift(DefaultWindowSelector(name, length, formula))
  {
  }

  /** With the rectangular50 branch corrected, the selectors agree on every name but blackman. */
  lemma CorrectedSelectorsAgree(name: string, length: nat, formula: Family -> seq<real>)
    requires name != "blackman"
    ensures LegacyWindowSelectorCorrected(name, length, formula) == Lift(DefaultWindowSelector(name, length, formula))
  {
    if name == "rectangular50" {
      assert DefaultWindowSelector(name, length, formula) == Ok(Selection(Ones(length), length / 2));
    } else {
      SelectorsAgree(name, length, formula);
    }
  }

  /** The legacy rectangular50 falls off the end of its branch: a length-4 request yields nothing. */
  lemma LegacyRectangular50ReturnsNothing(formula: Family -> seq<real>)
    ensures LegacyWindowSelector("rectangular50", 4, formula) == Ok(None)
    ensures DefaultWindowSelector("rectangular50", 4, formula) == Ok(Selection(Ones(4), 2))
  {
    assert DefaultWindowSelector("rectangular50", 4, formula).value.hop == 2;
  }

  /**
   * The two blackman branches share hop and divisibility; the new one clamps the
   * samples, so a negative sample of the formula survives only in the legacy one.
   */
  lemma BlackmanClampDiffers(length: nat, formula: Family -> seq<real>)
    ensures LegacyWindowSelector("blackman", length, formula).Ok? <==> DefaultWindowSelector("blackman", length, formula).Ok?
    ensures DefaultWindowSelector("blackman", length, formula).Ok? ==>
              var legacy := LegacyWindowSelector("blackman", length, formula).value.value;
              var current := DefaultWindowSelector("blackman", length, formula).value;
              legacy.hop == current.hop && current.window == Clamp(legacy.window)
              && (!NonNegative(formula(Blackman)) ==> !NonNegative(legacy.window) && NonNegative(current.window))
  {
  }
}
