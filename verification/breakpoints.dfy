/** The mode decision of the bundled routine (`getCurrentAction`): which action
    the options select for the current viewport width. */
module Breakpoints {
  import opened Common

  const EqualizeAction: string := "equalize"
  const ResetAction: string := "reset"

  /** One entry of `options.breakpoints`. Missing bounds and a missing action
      are `None`; the action is whatever value the page supplied. */
  datatype Breakpoint = Breakpoint(min: Option<int>, max: Option<int>, action: Option<string>)

  /** `window.equalizeHeightsOptions` (an absent object reads as `{}`).
      `breakpoints` is `Some` exactly when the option is an array; `minWidth`
      is `None` when the option is absent. */
  datatype Options = Options(breakpoints: Option<seq<Breakpoint>>, minWidth: Option<int>)

  const NoOptions := Options(None, None)

  /** `bp.min !== undefined ? bp.min : 0`. */
  function LowerBound(bp: Breakpoint): int {
    if bp.min.Some? then bp.min.value else 0
  }

  /** The width lies in the breakpoint's range; both ends are inclusive and a
      missing `max` is `Infinity`. */
  predicate InRange(bp: Breakpoint, width: int) {
    LowerBound(bp) <= width && (bp.max.None? || width <= bp.max.value)
  }

  /** `options.minWidth` is truthy: present and not zero. */
  predicate HasMinWidth(opts: Options) {
    opts.minWidth.Some? && opts.minWidth.value != 0
  }

  /** The `for (let bp of options.breakpoints)` scan from position `from`:
      the position of the first entry whose range holds the width. */
  function FirstMatch(bps: seq<Breakpoint>, width: int, from: nat): (r: Option<nat>)
    requires from <= |bps|
    ensures r.Some? ==> from <= r.value < |bps| && InRange(bps[r.value], width)
    ensures r.Some? ==> forall j :: from <= j < r.value ==> !InRange(bps[j], width)
    ensures r.None? ==> forall j :: from <= j < |bps| ==> !InRange(bps[j], width)
    decreases |bps| - from
  {
    if from == |bps| then None
    else if InRange(bps[from], width) then Some(from)
    else FirstMatch(bps, width, from + 1)
  }

  /** `getCurrentAction()` at viewport width `width`. */
  function CurrentAction(opts: Options, width: int): (r: Option<string>)
    // With a breakpoint array, the first entry whose range holds the width decides.
    ensures opts.breakpoints.Some? && (exists i :: 0 <= i < |opts.breakpoints.value| && InRange(opts.breakpoints.value[i], width)) ==>
      exists i :: 0 <= i < |opts.breakpoints.value| && InRange(opts.breakpoints.value[i], width)
        && (forall j :: 0 <= j < i ==> !InRange(opts.breakpoints.value[j], width))
        && r == opts.breakpoints.value[i].action
    // With a breakpoint array and no matching entry, the default applies; minWidth is ignored.
    ensures opts.breakpoints.Some? && (forall i :: 0 <= i < |opts.breakpoints.value| ==> !InRange(opts.breakpoints.value[i], width)) ==>
      r == Some(EqualizeAction)
    // Without an array, a truthy minWidth is a single threshold.
    ensures opts.breakpoints.None? && HasMinWidth(opts) ==>
      r == Some(if width < opts.minWidth.value then ResetAction else EqualizeAction)
    ensures opts.breakpoints.None? && !HasMinWidth(opts) ==> r == Some(EqualizeAction)
  {
    match opts.breakpoints
    case Some(bps) =>
      (match FirstMatch(bps, width, 0)
       case Some(i) => bps[i].action
       case None => Some(EqualizeAction))
    case None =>
      if HasMinWidth(opts) then
        (if width < opts.minWidth.value then Some(ResetAction) else Some(EqualizeAction))
      else Some(EqualizeAction)
  }

  /** Only an action exactly equal to "reset" selects the reset path. */
  predicate SelectsReset(action: Option<string>) {
    action == Some(ResetAction)
  }

  /** Once `breakpoints` is an array, `minWidth` plays no part, even when the
      array is empty. */
  lemma ArrayIgnoresMinWidth(bps: seq<Breakpoint>, m1: Option<int>, m2: Option<int>, width: int)
    ensures CurrentAction(Options(Some(bps), m1), width) == CurrentAction(Options(Some(bps), m2), width)
    ensures |bps| == 0 ==> CurrentAction(Options(Some(bps), m1), width) == Some(EqualizeAction)
  {
  }

  /** Every decision that does not come from a breakpoint entry is one of the
      two known actions; an unknown action can only come from an entry. */
  lemma UnknownActionComesFromEntry(opts: Options, width: int)
    requires CurrentAction(opts, width) != Some(EqualizeAction) && CurrentAction(opts, width) != Some(ResetAction)
    ensures opts.breakpoints.Some?
    ensures exists i :: 0 <= i < |opts.breakpoints.value| && InRange(opts.breakpoints.value[i], width) &&
                        CurrentAction(opts, width) == opts.breakpoints.value[i].action
  {
  }

  /** The two-range configuration: 0..599 resets, 600 and up equalizes; both
      ends of each range are inclusive. */
  lemma TwoRangeExample()
    ensures var opts := Options(Some([Breakpoint(Some(0), Some(599), Some(ResetAction)),
                                     Breakpoint(Some(600), None, Some(EqualizeAction))]), Some(1000));
      && CurrentAction(opts, 500) == Some(ResetAction)
      && CurrentAction(opts, 599) == Some(ResetAction)
      && CurrentAction(opts, 600) == Some(EqualizeAction)
      && CurrentAction(opts, 800) == Some(EqualizeAction)
  {
  }

  /** With no options at all the routine always equalizes. */
  lemma NoOptionsEqualize(width: int)
    ensures CurrentAction(NoOptions, width) == Some(EqualizeAction)
  {
  }
}
