/**
 * The half-hour slot generator of the demo component: the list of
 * `"h:m"` options after a minimum slot, and the zero-padded `"hh:mm"` label
 * of a slot.
 *
 * Hours and minutes are modelled as integers.
 */
module HourSlots {
  import opened Wrappers

  /** `IHourSlot`. */
  datatype HourSlot = HourSlot(hour: int, minute: int)

  /** The number of hours the generator walks through. */
  const HourAmount: int := 24

  /** The default minimum slot of `getHourOptions`. */
  const DefaultMinimum: HourSlot := HourSlot(0, -1)

  // ---------------------------------------------------------------------------
  // Decimal text of integers (`Number.prototype.toString` on integers)
  // ---------------------------------------------------------------------------

  predicate IsDigit(ch: char) {
    '0' <= ch <= '9'
  }

  function DigitChar(d: int): (ch: char)
    requires 0 <= d < 10
    ensures IsDigit(ch)
  {
    ('0' as int + d) as char
  }

  function DigitValue(ch: char): int {
    ch as int - '0' as int
  }

  /** The number a string of decimal digits denotes. */
  function DecimalValue(s: string): int {
    if s == [] then 0 else DecimalValue(s[..|s| - 1]) * 10 + DigitValue(s[|s| - 1])
  }

  /** The decimal text of a natural number: digits only, no leading zero, and it reads back as `n`. */
  function NatToString(n: nat): (r: string)
    ensures |r| >= 1 && forall i :: 0 <= i < |r| ==> IsDigit(r[i])
    ensures r[0] != '0' || n == 0
    ensures DecimalValue(r) == n
    ensures |r| == 1 <==> n < 10
  {
    if n < 10 then [DigitChar(n)]
    else
      var prefix := NatToString(n / 10);
      var r := prefix + [DigitChar(n % 10)];
      assert r[..|r| - 1] == prefix;
      r
  }

  /** `s` is the decimal text of `n`: digits without a leading zero that denote `n`. */
  predicate IsNatText(s: string, n: nat) {
    && |s| >= 1
    && (forall i :: 0 <= i < |s| ==> IsDigit(s[i]))
    && (s[0] != '0' || |s| == 1)
    && DecimalValue(s) == n
  }

  /** `s` is the decimal text of the integer `n`, with a `-` in front when `n` is negative. */
  predicate IsIntText(s: string, n: int) {
    if n >= 0 then IsNatText(s, n) else |s| >= 2 && s[0] == '-' && IsNatText(s[1..], -n)
  }

  /** The decimal text of an integer, with a `-` sign when negative (a template literal `${i}`). */
  function IntToString(n: int): (r: string)
    ensures n >= 0 ==> r == NatToString(n)
    ensures n < 0 ==> r == "-" + NatToString(-n)
    ensures IsIntText(r, n)
  {
    if n < 0 then
      var r := "-" + NatToString(-n);
      assert r[1..] == NatToString(-n);
      r
    else NatToString(n)
  }

  /** A leading zero does not change the number a digit string denotes. */
  lemma {:induction false} LeadingZero(s: string)
    ensures DecimalValue("0" + s) == DecimalValue(s)
  {
    if s != [] {
      var t := "0" + s;
      assert t[..|t| - 1] == "0" + s[..|s| - 1];
      assert t[|t| - 1] == s[|s| - 1];
      LeadingZero(s[..|s| - 1]);
    } else {
      assert ("0" + s)[..0] == [];
    }
  }

  /**
   * `getAddedLeftZeroNumber`: numbers above 9 as they are, the others with a
   * `0` in front. A non-negative number becomes at least two digits that read
   * back as the number, and exactly two below 100.
   */
  function AddedLeftZeroNumber(num: int): (r: string)
    ensures num >= 0 ==> |r| >= 2 && (forall i :: 0 <= i < |r| ==> IsDigit(r[i])) && DecimalValue(r) == num
    ensures 0 <= num <= 99 ==> |r| == 2
    ensures num > 9 ==> IsIntText(r, num)
    ensures num <= 9 ==> |r| >= 2 && r[0] == '0' && IsIntText(r[1..], num)
  {
    if num > 9 then
      assert num <= 99 ==> |NatToString(num / 10)| == 1;
      IntToString(num)
    else
      var t := IntToString(num);
      LeadingZero(t);
      var r := "0" + t;
      assert r[1..] == t;
      assert num >= 0 ==> |t| == 1 && IsDigit(t[0]) && r == [r[0], t[0]];
      r
  }

  /**
   * `getHourSlotString`: `hh:mm`. For an hour and a minute in 0..99 the text
   * is five characters with `:` in the middle, and both numbers read back.
   */
  function HourSlotString(timeSlot: HourSlot): (r: string)
    ensures 0 <= timeSlot.hour <= 99 && 0 <= timeSlot.minute <= 99 ==>
      && |r| == 5 && r[2] == ':'
      && (forall i :: 0 <= i < 5 && i != 2 ==> IsDigit(r[i]))
      && DecimalValue(r[..2]) == timeSlot.hour
      && DecimalValue(r[3..]) == timeSlot.minute
  {
    var h := AddedLeftZeroNumber(timeSlot.hour);
    var m := AddedLeftZeroNumber(timeSlot.minute);
    var r := h + ":" + m;
    if 0 <= timeSlot.hour <= 99 && 0 <= timeSlot.minute <= 99 then
      assert |h| == 2 && |m| == 2;
      assert r[..2] == h && r[3..] == m;
      assert forall i :: 0 <= i < 5 && i != 2 ==> r[i] == if i < 2 then h[i] else m[i - 3];
      r
    else r
  }

  // ---------------------------------------------------------------------------
  // The slots after a minimum
  // ---------------------------------------------------------------------------

  /** The number of half-hour slots from `hour` up to the end of the day. */
  function SlotCount(hour: int): nat {
    if hour < HourAmount then 2 * (HourAmount - hour) else 0
  }

  /** The `n`-th slot from `hour`: whole hours and half hours alternate. */
  function SlotAt(hour: int, n: nat): HourSlot {
    HourSlot(hour + n / 2, if n % 2 == 0 then 0 else 30)
  }

  /** The slots from position `from` up to, not including, position `to`, counted from `hour:0`. */
  function Span(hour: int, from: nat, to: nat): (r: seq<HourSlot>)
    ensures |r| == if from <= to then to - from else 0
    ensures forall n :: 0 <= n < |r| ==> r[n] == SlotAt(hour, from + n)
  {
    if from <= to then seq(to - from, n requires 0 <= n < to - from => SlotAt(hour, from + n)) else []
  }

  /** Every slot from `hour:0` to `23:30`, in order. */
  function AllSlots(hour: int): seq<HourSlot> {
    Span(hour, 0, SlotCount(hour))
  }

  /** Visiting one more slot extends a span by that slot. */
  lemma SpanStep(hour: int, from: nat, k: nat)
    requires from <= k
    ensures Span(hour, from, k + 1) == Span(hour, from, k) + [SlotAt(hour, k)]
  {
    assert Span(hour, from, k + 1)[k - from] == SlotAt(hour, k);
  }

  /** The position of the first slot whose minute is at least `minute`, if any. */
  function Threshold(minute: int): Option<nat> {
    if minute <= 0 then Some(0) else if minute <= 30 then Some(1) else None
  }

  /** `Threshold` is the first slot that reaches `minute`; no slot reaches it when there is none. */
  lemma ThresholdIsFirst(hour: int, minute: int, n: nat)
    ensures Threshold(minute).Some? ==> SlotAt(hour, Threshold(minute).value).minute >= minute
    ensures Threshold(minute).None? || n < Threshold(minute).value ==> SlotAt(hour, n).minute < minute
  {
  }

  /** The slots emitted once the first `k` slots have been visited: those after the threshold. */
  function Emitted(hour: int, minute: int, k: nat): seq<HourSlot> {
    match Threshold(minute)
    case None => []
    case Some(t) => Span(hour, t + 1, k)
  }

  /** The slots `getHourOptions` returns: every slot strictly after the threshold slot. */
  function Expected(minimHourSlot: HourSlot): seq<HourSlot> {
    Emitted(minimHourSlot.hour, minimHourSlot.minute, SlotCount(minimHourSlot.hour))
  }

  /**
   * The option text of a slot: `${i}:${m}`, without padding. Its only `:`
   * separates the decimal texts of the hour and the minute (`IntToString`
   * makes each `IsIntText`), and a non-negative hour and minute read back from
   * the two sides.
   */
  function Label(slot: HourSlot): (r: string)
    ensures var k := |IntToString(slot.hour)|;
      && k < |r| && r[k] == ':'
      && (forall i :: 0 <= i < |r| && i != k ==> r[i] != ':')
      && r[..k] == IntToString(slot.hour) && r[k + 1..] == IntToString(slot.minute)
      && (slot.hour >= 0 ==> DecimalValue(r[..k]) == slot.hour)
      && (slot.minute >= 0 ==> DecimalValue(r[k + 1..]) == slot.minute)
  {
    var p := IntToString(slot.hour);
    var q := IntToString(slot.minute);
    IntToStringHasNoColon(slot.hour);
    IntToStringHasNoColon(slot.minute);
    var r := p + ":" + q;
    assert r[..|p|] == p && r[|p| + 1..] == q;
    r
  }

  function Labels(slots: seq<HourSlot>): (r: seq<string>)
    ensures |r| == |slots|
    ensures forall i :: 0 <= i < |slots| ==> r[i] == Label(slots[i])
  {
    seq(|slots|, i requires 0 <= i < |slots| => Label(slots[i]))
  }

  lemma EmittedStep(hour: int, minute: int, k: nat)
    ensures Emitted(hour, minute, k + 1) ==
      Emitted(hour, minute, k) + (if Threshold(minute).Some? && Threshold(minute).value < k then [SlotAt(hour, k)] else [])
  {
    if Threshold(minute).Some? {
      var t := Threshold(minute).value;
      if t < k {
        SpanStep(hour, t + 1, k);
      } else {
        assert Span(hour, t + 1, k + 1) == [];
      }
    }
  }

  /** Visiting slot `k`: it is emitted exactly when the flag is already set, and the flag then records whether the threshold has been reached. */
  lemma VisitSlot(hour: int, minute: int, k: nat, flag: bool)
    requires flag == (Threshold(minute).Some? && Threshold(minute).value < k)
    ensures Labels(Emitted(hour, minute, k + 1)) ==
      Labels(Emitted(hour, minute, k)) + (if flag then [Label(SlotAt(hour, k))] else [])
    ensures (flag || SlotAt(hour, k).minute >= minute) == (Threshold(minute).Some? && Threshold(minute).value < k + 1)
  {
    EmittedStep(hour, minute, k);
    ThresholdIsFirst(hour, minute, k);
    var before := Emitted(hour, minute, k);
    if flag {
      assert Labels(before + [SlotAt(hour, k)]) == Labels(before) + [Label(SlotAt(hour, k))];
    } else {
      assert before + [] == before;
    }
  }

  /**
   * The `forEach` callback of `getHourOptions` on minute `m` of hour `i`,
   * slot `k` from the minimum's hour: the slot is pushed exactly when the
   * flag is already set, and the flag then records whether the threshold
   * has been reached.
   */
  method VisitMinute(minimHourSlot: HourSlot, i: int, m: int, ghost k: nat, options0: seq<string>, isPassedMinim0: bool)
    returns (options: seq<string>, isPassedMinim: bool)
    requires minimHourSlot.hour <= i < HourAmount && (m == 0 || m == 30)
    requires k == 2 * (i - minimHourSlot.hour) + (if m == 0 then 0 else 1)
    requires options0 == Labels(Emitted(minimHourSlot.hour, minimHourSlot.minute, k))
    requires isPassedMinim0 == (Threshold(minimHourSlot.minute).Some? && Threshold(minimHourSlot.minute).value < k)
    ensures options == Labels(Emitted(minimHourSlot.hour, minimHourSlot.minute, k + 1))
    ensures isPassedMinim == (Threshold(minimHourSlot.minute).Some? && Threshold(minimHourSlot.minute).value < k + 1)
  {
    assert SlotAt(minimHourSlot.hour, k) == HourSlot(i, m);
    VisitSlot(minimHourSlot.hour, minimHourSlot.minute, k, isPassedMinim0);
    options, isPassedMinim := options0, isPassedMinim0;
    if isPassedMinim {
      options := options + [IntToString(i) + ":" + IntToString(m)];
    }
    if i >= minimHourSlot.hour && m >= minimHourSlot.minute {
      isPassedMinim := true;
    }
  }

  /**
   * One `minutes.forEach` pass of `getHourOptions` over hour `i`: each
   * minute is pushed when the flag is already set, and then sets the flag
   * when it reaches the minimum's minute.
   */
  method VisitHour(minimHourSlot: HourSlot, i: int, options0: seq<string>, isPassedMinim0: bool)
    returns (options: seq<string>, isPassedMinim: bool)
    requires minimHourSlot.hour <= i < HourAmount
    requires options0 == Labels(Emitted(minimHourSlot.hour, minimHourSlot.minute, 2 * (i - minimHourSlot.hour)))
    requires isPassedMinim0 == (Threshold(minimHourSlot.minute).Some? &&
      Threshold(minimHourSlot.minute).value < 2 * (i - minimHourSlot.hour))
    ensures options == Labels(Emitted(minimHourSlot.hour, minimHourSlot.minute, 2 * (i + 1 - minimHourSlot.hour)))
    ensures isPassedMinim == (Threshold(minimHourSlot.minute).Some? &&
      Threshold(minimHourSlot.minute).value < 2 * (i + 1 - minimHourSlot.hour))
  {
    options, isPassedMinim := options0, isPassedMinim0;
    var minutes := [0, 30];
    ghost var start := minimHourSlot.hour;
    ghost var threshold := Threshold(minimHourSlot.minute);
    var j := 0;
    while j < |minutes|
      invariant 0 <= j <= |minutes|
      invariant options == Labels(Emitted(start, minimHourSlot.minute, 2 * (i - start) + j))
      invariant isPassedMinim == (threshold.Some? && threshold.value < 2 * (i - start) + j)
    {
      options, isPassedMinim := VisitMinute(minimHourSlot, i, minutes[j], 2 * (i - start) + j, options, isPassedMinim);
      j := j + 1;
    }
  }

  /**
   * `getHourOptions`: walks the hours from the minimum's hour to 23 and the
   * minutes 0 and 30, emitting a slot only once an earlier slot has reached
   * the minimum's minute.
   */
  method GetHourOptions(minimHourSlot: HourSlot) returns (options: seq<string>)
    ensures options == Labels(Expected(minimHourSlot))
  {
    options := [];
    var isPassedMinim := false;
    ghost var start := minimHourSlot.hour;
    ghost var threshold := Threshold(minimHourSlot.minute);
    var i := minimHourSlot.hour;
    while i < HourAmount
      invariant start <= i && (start < HourAmount ==> i <= HourAmount) && (start >= HourAmount ==> i == start)
      invariant options == Labels(Emitted(start, minimHourSlot.minute, 2 * (i - start)))
      invariant isPassedMinim == (threshold.Some? && threshold.value < 2 * (i - start))
    {
      options, isPassedMinim := VisitHour(minimHourSlot, i, options, isPassedMinim);
      i := i + 1;
    }
  }

  /** Strict (hour, minute) order. */
  predicate Before(a: HourSlot, b: HourSlot) {
    a.hour < b.hour || (a.hour == b.hour && a.minute < b.minute)
  }

  /** Every emitted slot lies between the minimum's hour and 23:30, on a whole or half hour. */
  lemma ExpectedInRange(minimHourSlot: HourSlot, s: HourSlot)
    requires s in Expected(minimHourSlot)
    ensures minimHourSlot.hour <= s.hour < HourAmount
    ensures s.minute == 0 || s.minute == 30
  {
    var e := Expected(minimHourSlot);
    var j :| 0 <= j < |e| && e[j] == s;
    var t := Threshold(minimHourSlot.minute).value;
    assert s == AllSlots(minimHourSlot.hour)[t + 1 + j];
  }

  /** The emitted slots are in strictly increasing (hour, minute) order, hence without repeats. */
  lemma ExpectedSorted(minimHourSlot: HourSlot, a: int, b: int)
    requires 0 <= a < b < |Expected(minimHourSlot)|
    ensures Before(Expected(minimHourSlot)[a], Expected(minimHourSlot)[b])
  {
    var e := Expected(minimHourSlot);
    var t := Threshold(minimHourSlot.minute).value;
    var all := AllSlots(minimHourSlot.hour);
    assert e[a] == all[t + 1 + a] && e[b] == all[t + 1 + b];
  }

  /** At most two slots per remaining hour, and none from hour 24 on. */
  lemma ExpectedLength(minimHourSlot: HourSlot)
    ensures minimHourSlot.hour < HourAmount ==> |Expected(minimHourSlot)| <= 2 * (HourAmount - minimHourSlot.hour)
    ensures minimHourSlot.hour >= HourAmount ==> Expected(minimHourSlot) == []
  {
  }

  /**
   * Because the push comes before the flag is set, the threshold slot
   * itself is left out: a minute up to 0 starts at `hour:30`, a minute in
   * 1..30 at `(hour+1):0`, and a later minute yields nothing.
   */
  lemma ExpectedStart(minimHourSlot: HourSlot)
    ensures minimHourSlot.minute > 30 ==> Expected(minimHourSlot) == []
    ensures minimHourSlot.hour < HourAmount && minimHourSlot.minute <= 0 ==>
      |Expected(minimHourSlot)| == 2 * (HourAmount - minimHourSlot.hour) - 1
      && Expected(minimHourSlot)[0] == HourSlot(minimHourSlot.hour, 30)
    ensures minimHourSlot.hour < HourAmount && 0 < minimHourSlot.minute <= 30 ==>
      |Expected(minimHourSlot)| == 2 * (HourAmount - minimHourSlot.hour) - 2
    ensures minimHourSlot.hour < HourAmount - 1 && 0 < minimHourSlot.minute <= 30 ==>
      Expected(minimHourSlot)[0] == HourSlot(minimHourSlot.hour + 1, 0)
  {
    var h := minimHourSlot.hour;
    if h < HourAmount && minimHourSlot.minute <= 30 {
      var all := AllSlots(h);
      assert all[1] == SlotAt(h, 1);
      if h < HourAmount - 1 {
        assert all[2] == SlotAt(h, 2);
      }
    }
  }

  /** The decimal text of an integer holds no `:`. */
  lemma IntToStringHasNoColon(n: int)
    ensures forall i :: 0 <= i < |IntToString(n)| ==> IntToString(n)[i] != ':'
  {
  }

  /** Different integers have different decimal texts. */
  lemma IntToStringInjective(a: int, b: int)
    requires IntToString(a) == IntToString(b)
    ensures a == b
  {
    if a < 0 && b < 0 {
      var ra := NatToString(-a);
      var rb := NatToString(-b);
      assert ("-" + ra)[1..] == ra && ("-" + rb)[1..] == rb;
    }
  }

  /** Different slots have different option texts. */
  lemma LabelInjective(x: HourSlot, y: HourSlot)
    requires Label(x) == Label(y)
    ensures x == y
  {
    var p, q := IntToString(x.hour), IntToString(x.minute);
    var p', q' := IntToString(y.hour), IntToString(y.minute);
    IntToStringHasNoColon(x.hour);
    IntToStringHasNoColon(y.hour);
    var l := p + ":" + q;
    assert l == p' + ":" + q';
    assert l[|p|] == ':' && l[|p'|] == ':';
    assert |p| == |p'|;
    assert p == l[..|p|] == p';
    assert q == l[|p| + 1..] == q';
    IntToStringInjective(x.hour, y.hour);
    IntToStringInjective(x.minute, y.minute);
  }

  /** No option text appears twice in the output of `getHourOptions`. */
  lemma OptionsDistinct(minimHourSlot: HourSlot, a: int, b: int)
    requires 0 <= a < |Labels(Expected(minimHourSlot))| && 0 <= b < |Labels(Expected(minimHourSlot))| && a != b
    ensures Labels(Expected(minimHourSlot))[a] != Labels(Expected(minimHourSlot))[b]
  {
    var e := Expected(minimHourSlot);
    if a < b {
      ExpectedSorted(minimHourSlot, a, b);
    } else {
      ExpectedSorted(minimHourSlot, b, a);
    }
    if Label(e[a]) == Label(e[b]) {
      LabelInjective(e[a], e[b]);
    }
  }

  /** With the default minimum `{hour: 0, minute: -1}` the options are the 47 slots from `0:30` to `23:30`. */
  lemma DefaultMinimumOptions()
    ensures |Expected(DefaultMinimum)| == 47
    ensures Expected(DefaultMinimum)[0] == HourSlot(0, 30)
    ensures Expected(DefaultMinimum)[46] == HourSlot(23, 30)
  {
    ExpectedStart(DefaultMinimum);
    var t := Threshold(DefaultMinimum.minute).value;
    assert Expected(DefaultMinimum)[46] == AllSlots(0)[t + 1 + 46];
  }

  /** The option texts of `23:00` and `23:30`. */
  lemma LabelsAtTwentyThree()
    ensures Label(HourSlot(23, 0)) == "23:0"
    ensures Label(HourSlot(23, 30)) == "23:30"
  {
    assert NatToString(23) == "23" by {
      assert NatToString(2) == "2";
    }
    assert NatToString(30) == "30" by {
      assert NatToString(3) == "3";
    }
    assert NatToString(0) == "0";
  }

  /** From `{hour: 22, minute: 30}` the options are `["23:0", "23:30"]`. */
  lemma ExampleFromTwentyTwoThirty()
    ensures Labels(Expected(HourSlot(22, 30))) == ["23:0", "23:30"]
  {
    ExpectedFromTwentyTwoThirty();
    LabelsOfPair(HourSlot(23, 0), HourSlot(23, 30));
    LabelsAtTwentyThree();
  }

  /** From `{hour: 22, minute: 30}` the slots are `23:00` and `23:30`. */
  lemma ExpectedFromTwentyTwoThirty()
    ensures Expected(HourSlot(22, 30)) == [HourSlot(23, 0), HourSlot(23, 30)]
  {
    var e := Expected(HourSlot(22, 30));
    assert e == Span(22, 2, 4);
    assert e[0] == SlotAt(22, 2) && e[1] == SlotAt(22, 3);
  }

  lemma LabelsOfPair(x: HourSlot, y: HourSlot)
    ensures Labels([x, y]) == [Label(x), Label(y)]
  {
  }

  // ---------------------------------------------------------------------------
  // The slots strictly after the minimum, as the doc comment promises
  // ---------------------------------------------------------------------------

  /** The position of the first slot strictly after `minute` within the minimum's hour or, failing that, the next hour. */
  function FirstAfter(minute: int): nat {
    if minute < 0 then 0 else if minute < 30 then 1 else 2
  }

  /** The slots strictly after the minimum among the first `k` slots from its hour. */
  function Following(minimHourSlot: HourSlot, k: nat): seq<HourSlot> {
    Span(minimHourSlot.hour, FirstAfter(minimHourSlot.minute), k)
  }

  /** Every slot from the minimum's hour to `23:30` that is strictly after the minimum. */
  function After(minimHourSlot: HourSlot): seq<HourSlot> {
    Following(minimHourSlot, SlotCount(minimHourSlot.hour))
  }

  /** A slot from the minimum's hour on is strictly after the minimum exactly from position `FirstAfter` on. */
  lemma FirstAfterIsFirst(minimHourSlot: HourSlot, n: nat)
    ensures Before(minimHourSlot, SlotAt(minimHourSlot.hour, n)) <==> n >= FirstAfter(minimHourSlot.minute)
  {
  }

  /** Every slot of `After` is a slot of the day from the minimum's hour on, strictly after the minimum. */
  lemma AfterSound(minimHourSlot: HourSlot, j: int)
    requires 0 <= j < |After(minimHourSlot)|
    ensures After(minimHourSlot)[j] in AllSlots(minimHourSlot.hour)
    ensures Before(minimHourSlot, After(minimHourSlot)[j])
  {
    var first := FirstAfter(minimHourSlot.minute);
    var all := AllSlots(minimHourSlot.hour);
    assert After(minimHourSlot)[j] == all[first + j];
    FirstAfterIsFirst(minimHourSlot, first + j);
  }

  /** Every slot of the day from the minimum's hour on that is strictly after the minimum is in `After`. */
  lemma AfterComplete(minimHourSlot: HourSlot, n: int)
    requires 0 <= n < |AllSlots(minimHourSlot.hour)|
    requires Before(minimHourSlot, AllSlots(minimHourSlot.hour)[n])
    ensures AllSlots(minimHourSlot.hour)[n] in After(minimHourSlot)
  {
    var first := FirstAfter(minimHourSlot.minute);
    FirstAfterIsFirst(minimHourSlot, n);
    assert After(minimHourSlot)[n - first] == AllSlots(minimHourSlot.hour)[n];
  }

  /** `After` holds exactly the slots from the minimum's hour on that are strictly after the minimum, in order. */
  lemma AfterIsStrictlyGreater(minimHourSlot: HourSlot)
    ensures forall s :: s in After(minimHourSlot) <==> s in AllSlots(minimHourSlot.hour) && Before(minimHourSlot, s)
    ensures forall a, b :: 0 <= a < b < |After(minimHourSlot)| ==> Before(After(minimHourSlot)[a], After(minimHourSlot)[b])
  {
    var all := AllSlots(minimHourSlot.hour);
    var after := After(minimHourSlot);
    forall s | s in after
      ensures s in all && Before(minimHourSlot, s)
    {
      var j :| 0 <= j < |after| && after[j] == s;
      AfterSound(minimHourSlot, j);
    }
    forall s | s in all && Before(minimHourSlot, s)
      ensures s in after
    {
      var n :| 0 <= n < |all| && all[n] == s;
      AfterComplete(minimHourSlot, n);
    }
  }

  /** The slots after the minimum among the first `k + 1` extend those among the first `k` by slot `k` exactly when it is after the minimum. */
  lemma FollowingStep(minimHourSlot: HourSlot, k: nat)
    ensures Labels(Following(minimHourSlot, k + 1)) == Labels(Following(minimHourSlot, k)) +
      (if FirstAfter(minimHourSlot.minute) <= k then [Label(SlotAt(minimHourSlot.hour, k))] else [])
  {
    var first := FirstAfter(minimHourSlot.minute);
    if first <= k {
      var before := Span(minimHourSlot.hour, first, k);
      SpanStep(minimHourSlot.hour, first, k);
      assert Labels(before + [SlotAt(minimHourSlot.hour, k)]) == Labels(before) + [Label(SlotAt(minimHourSlot.hour, k))];
    }
  }

  /**
   * The callback of the intended walk on minute `m` of hour `i`, slot `k`:
   * a slot after the minimum sets the flag, and the slot is pushed when the
   * flag is then set.
   */
  method VisitMinuteIntended(minimHourSlot: HourSlot, i: int, m: int, ghost k: nat, options0: seq<string>, isPassedMinim0: bool)
    returns (options: seq<string>, isPassedMinim: bool)
    requires minimHourSlot.hour <= i < HourAmount && (m == 0 || m == 30)
    requires k == 2 * (i - minimHourSlot.hour) + (if m == 0 then 0 else 1)
    requires options0 == Labels(Following(minimHourSlot, k))
    requires isPassedMinim0 == (FirstAfter(minimHourSlot.minute) < k)
    ensures options == Labels(Following(minimHourSlot, k + 1))
    ensures isPassedMinim == (FirstAfter(minimHourSlot.minute) < k + 1)
  {
    assert SlotAt(minimHourSlot.hour, k) == HourSlot(i, m);
    FirstAfterIsFirst(minimHourSlot, k);
    FollowingStep(minimHourSlot, k);
    options, isPassedMinim := options0, isPassedMinim0;
    if i > minimHourSlot.hour || m > minimHourSlot.minute {
      isPassedMinim := true;
    }
    if isPassedMinim {
      options := options + [IntToString(i) + ":" + IntToString(m)];
    }
  }

  /** One pass over hour `i` of the intended walk: the flag is set before the push. */
  method VisitHourIntended(minimHourSlot: HourSlot, i: int, options0: seq<string>, isPassedMinim0: bool)
    returns (options: seq<string>, isPassedMinim: bool)
    requires minimHourSlot.hour <= i < HourAmount
    requires options0 == Labels(Following(minimHourSlot, 2 * (i - minimHourSlot.hour)))
    requires isPassedMinim0 == (FirstAfter(minimHourSlot.minute) < 2 * (i - minimHourSlot.hour))
    ensures options == Labels(Following(minimHourSlot, 2 * (i + 1 - minimHourSlot.hour)))
    ensures isPassedMinim == (FirstAfter(minimHourSlot.minute) < 2 * (i + 1 - minimHourSlot.hour))
  {
    options, isPassedMinim := options0, isPassedMinim0;
    var minutes := [0, 30];
    ghost var start := minimHourSlot.hour;
    var j := 0;
    while j < |minutes|
      invariant 0 <= j <= |minutes|
      invariant options == Labels(Following(minimHourSlot, 2 * (i - start) + j))
      invariant isPassedMinim == (FirstAfter(minimHourSlot.minute) < 2 * (i - start) + j)
    {
      options, isPassedMinim := VisitMinuteIntended(minimHourSlot, i, minutes[j], 2 * (i - start) + j, options, isPassedMinim);
      j := j + 1;
    }
  }

  /**
   * `getHourOptions` with the flag set before the push and set by any slot
   * strictly after the minimum: it returns exactly the slots its doc comment
   * promises.
   */
  method GetHourOptionsIntended(minimHourSlot: HourSlot) returns (options: seq<string>)
    ensures options == Labels(After(minimHourSlot))
  {
    options := [];
    var isPassedMinim := false;
    ghost var start := minimHourSlot.hour;
    var i := minimHourSlot.hour;
    while i < HourAmount
      invariant start <= i && (start < HourAmount ==> i <= HourAmount) && (start >= HourAmount ==> i == start)
      invariant options == Labels(Following(minimHourSlot, 2 * (i - start)))
      invariant isPassedMinim == (FirstAfter(minimHourSlot.minute) < 2 * (i - start))
    {
      options, isPassedMinim := VisitHourIntended(minimHourSlot, i, options, isPassedMinim);
      i := i + 1;
    }
  }

  lemma MidnightLabel()
    ensures Label(HourSlot(0, 0)) == "0:0"
  {
    assert NatToString(0) == "0";
  }

  /** Only midnight is labelled `0:0`. */
  lemma NotMidnightLabel(slot: HourSlot)
    requires slot != HourSlot(0, 0)
    ensures Label(slot) != "0:0"
  {
    MidnightLabel();
    if Label(slot) == "0:0" {
      LabelInjective(slot, HourSlot(0, 0));
    }
  }

  /** A list of slots without midnight has no `0:0` option. */
  lemma NoMidnightLabel(slots: seq<HourSlot>)
    requires forall j :: 0 <= j < |slots| ==> slots[j] != HourSlot(0, 0)
    ensures "0:0" !in Labels(slots)
  {
    forall j | 0 <= j < |slots|
      ensures Labels(slots)[j] != "0:0"
    {
      NotMidnightLabel(slots[j]);
    }
  }

  /**
   * With the default minimum `{hour: 0, minute: -1}`, `0:0` is strictly after
   * the minimum, yet the code as written leaves it out.
   */
  lemma DefaultMinimumOmitsMidnight()
    ensures Before(DefaultMinimum, HourSlot(0, 0))
    ensures "0:0" !in Labels(Expected(DefaultMinimum))
    ensures "0:0" in Labels(After(DefaultMinimum))
  {
    var midnight := HourSlot(0, 0);
    MidnightLabel();
    var e := Expected(DefaultMinimum);
    assert e == Span(0, 1, SlotCount(0));
    NoMidnightLabel(e);
    var a := After(DefaultMinimum);
    assert a[0] == SlotAt(0, 0) == midnight;
    assert Labels(a)[0] == "0:0";
  }

  /**
   * The code as written compares only minutes (`i >= hour` always holds), so
   * a minimum after the half hour gives no options at all, although the next
   * hour's slots are after it.
   */
  lemma LateMinuteOmitsLaterHours(minimHourSlot: HourSlot)
    requires 0 <= minimHourSlot.hour < HourAmount - 1 && 30 < minimHourSlot.minute < 60
    ensures Before(minimHourSlot, HourSlot(minimHourSlot.hour + 1, 0))
    ensures Expected(minimHourSlot) == []
    ensures |After(minimHourSlot)| > 0 && After(minimHourSlot)[0] == HourSlot(minimHourSlot.hour + 1, 0)
  {
    ExpectedStart(minimHourSlot);
  }
}
