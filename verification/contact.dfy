/** The contact section: the enrolment countdown (resynchronised from the
    server, ticking once a second, shown as `HH:MM:SS`) and the contact form
    with its phone-length guard. */
module Contact {
  import opened Optional
  import opened Text

  /* ----- The countdown ----- */

  /** The `number | null` the page keeps: no value yet, `NaN`, or an
      integer number of seconds. */
  datatype Seconds = NoTime | NaN | Finite(n: int)

  const Sentinel := "--:--:--"

  /** `formatTime`: the sentinel for `null`, `NaN` and negative values,
      otherwise hours, minutes and seconds, each padded to two digits. */
  function FormatClock(t: Seconds): (r: string)
    ensures r == Sentinel <==> !(t.Finite? && t.n >= 0)
  {
    match t
    case Finite(s) =>
      if s < 0 then Sentinel else ClockText(s / 3600, (s % 3600) / 60, s % 60)
    case _ => Sentinel
  }

  /** `${h}:${m}:${s}` with each part padded to two digits. */
  function ClockText(h: nat, m: nat, sec: nat): (r: string)
    ensures |r| > 0 && IsDigit(r[|r| - 1])
  {
    var ss := TwoDigits(sec);
    var r := (TwoDigits(h) + ":" + TwoDigits(m)) + ":" + ss;
    JoinParts(TwoDigits(h) + ":" + TwoDigits(m), ss);
    r
  }

  /** A text joined to a two-character tail by a colon splits back. */
  lemma JoinParts(a: string, b: string)
    requires |b| >= 2
    ensures var r := a + ":" + b;
      |r| == |a| + 1 + |b| && r[..|a|] == a && r[|a|] == ':' && r[|a| + 1..] == b
      && r[|r| - 1] == b[|b| - 1]
  {
  }

  /** Three fields joined by colons, the last two two characters wide,
      split back at fixed distances from the end. */
  lemma SplitFields(a: string, b: string, c: string)
    requires |b| == 2 && |c| == 2
    ensures var r := a + ":" + b + ":" + c;
      && |r| == |a| + 6 && r[|r| - 6] == ':' && r[|r| - 3] == ':'
      && r[..|r| - 6] == a && r[|r| - 5..|r| - 3] == b && r[|r| - 2..] == c
  {
    var r := a + ":" + b + ":" + c;
    assert r[..|a|] == a;
    assert r[|a| + 1..|a| + 3] == b;
    assert r[|a| + 4..] == c;
  }

  /** The three fields of a clock text read back as its parts. */
  lemma ClockTextFields(h: nat, m: nat, sec: nat)
    requires m < 100 && sec < 100
    ensures var r := ClockText(h, m, sec);
      && |r| >= 8 && r[|r| - 6] == ':' && r[|r| - 3] == ':'
      && IsDigits(r[..|r| - 6]) && IsDigits(r[|r| - 5..|r| - 3]) && IsDigits(r[|r| - 2..])
      && ParseNat(r[..|r| - 6]) == h && ParseNat(r[|r| - 5..|r| - 3]) == m && ParseNat(r[|r| - 2..]) == sec
      && (h < 100 ==> |r| == 8)
  {
    var hs := TwoDigits(h);
    var ms := TwoDigits(m);
    var ss := TwoDigits(sec);
    SplitFields(hs, ms, ss);
    assert ClockText(h, m, sec) == hs + ":" + ms + ":" + ss;
  }

  /** For a non-negative time the text has three colon-separated numeric
      fields that add back up to the seconds: minutes and seconds below 60
      and two digits wide, hours at least two digits wide. */
  lemma FormatClockFields(s: int)
    requires s >= 0
    ensures var r := FormatClock(Finite(s));
      && |r| >= 8 && r[|r| - 6] == ':' && r[|r| - 3] == ':'
      && IsDigits(r[..|r| - 6]) && IsDigits(r[|r| - 5..|r| - 3]) && IsDigits(r[|r| - 2..])
      && ParseNat(r[|r| - 5..|r| - 3]) < 60 && ParseNat(r[|r| - 2..]) < 60
      && ParseNat(r[..|r| - 6]) * 3600 + ParseNat(r[|r| - 5..|r| - 3]) * 60 + ParseNat(r[|r| - 2..]) == s
      && (s < 360000 ==> |r| == 8)
  {
    var h := s / 3600;
    var m := (s % 3600) / 60;
    var sec := s % 60;
    ClockArithmetic(s);
    ClockTextFields(h, m, sec);
    var r := FormatClock(Finite(s));
    assert r == ClockText(h, m, sec);
    assert ParseNat(r[..|r| - 6]) * 3600 + ParseNat(r[|r| - 5..|r| - 3]) * 60 + ParseNat(r[|r| - 2..])
        == h * 3600 + m * 60 + sec;
  }

  lemma ClockArithmetic(s: int)
    requires s >= 0
    ensures (s % 3600) / 60 < 60
    ensures (s / 3600) * 3600 + ((s % 3600) / 60) * 60 + s % 60 == s
    ensures s < 360000 ==> s / 3600 < 100
  {
    var q := s / 3600;
    var rem := s % 3600;
    assert s == q * 3600 + rem;
    assert rem == (rem / 60) * 60 + rem % 60;
    assert rem % 60 == s % 60 by {
      assert s == (q * 60 + rem / 60) * 60 + rem % 60;
    }
  }

  lemma FormatClockExample()
    ensures FormatClock(Finite(3661)) == "01:01:01"
    ensures FormatClock(Finite(-1)) == Sentinel
  {
    assert NatToString(1) == "1";
    assert Repeat('0', 1) == "0";
    assert TwoDigits(1) == "01";
    assert 3661 / 3600 == 1 && (3661 % 3600) / 60 == 1 && 3661 % 60 == 1;
  }

  /** The tick: a positive time decreases by one, anything else stays. */
  function Tick(t: Seconds): (r: Seconds)
    ensures t.Finite? && t.n > 0 ==> r == Finite(t.n - 1)
    ensures !(t.Finite? && t.n > 0) ==> r == t
  {
    if t.Finite? && t.n > 0 then Finite(t.n - 1) else t
  }

  function Ticks(t: Seconds, k: nat): Seconds {
    if k == 0 then t else Tick(Ticks(t, k - 1))
  }

  /** `k` ticks from `n >= 0` seconds leave `max(n - k, 0)`: the countdown
      never turns negative by itself. */
  lemma {:induction false} TicksValue(n: int, k: nat)
    requires n >= 0
    ensures Ticks(Finite(n), k) == Finite(if k <= n then n - k else 0)
  {
    if k > 0 {
      TicksValue(n, k - 1);
    }
  }

  /** The resync: when the request settles with the server's
      `remaining_seconds` as text, the time becomes its `parseInt`, unless
      that is `NaN`; a failed request (`None`) leaves the time alone. */
  function Resync(t: Seconds, fetched: Option<string>): (r: Seconds)
    ensures fetched.Some? && ParseInt(fetched.value).Some? ==> r == Finite(ParseInt(fetched.value).value)
    ensures fetched.None? || ParseInt(fetched.value).None? ==> r == t
  {
    if fetched.Some? then
      match ParseInt(fetched.value)
      case Some(s) => Finite(s)
      case None => t
    else t
  }

  /** A server value sent as a number is taken over exactly. */
  lemma ResyncNumber(t: Seconds, n: int)
    ensures Resync(t, Some(IntToString(n))) == Finite(n)
  {
    ParseIntOfNumeral(n, "");
    assert IntToString(n) + "" == IntToString(n);
  }

  /** The events that change the time. */
  datatype TimerEvent = TickEvent | Fetched(remaining: Option<string>)

  function Step(t: Seconds, e: TimerEvent): Seconds {
    match e
    case TickEvent => Tick(t)
    case Fetched(v) => Resync(t, v)
  }

  function Run(t: Seconds, events: seq<TimerEvent>): Seconds {
    if |events| == 0 then t else Step(Run(t, events[..|events| - 1]), events[|events| - 1])
  }

  /** Starting from `null`, the time is never `NaN`, whatever the sequence
      of ticks and responses. */
  lemma {:induction false} NeverNaN(events: seq<TimerEvent>)
    ensures !Run(NoTime, events).NaN?
  {
    if |events| > 0 {
      NeverNaN(events[..|events| - 1]);
    }
  }

  /** The timer card is shown for a non-null, positive time. */
  predicate TimerCardVisible(t: Seconds) {
    t.Finite? && t.n > 0
  }

  /** A visible card never shows the sentinel, and a hidden one is exactly a
      time that is null, not a number, or not positive. */
  lemma TimerCardShowsTime(t: Seconds)
    ensures TimerCardVisible(t) ==> FormatClock(t) != Sentinel && |FormatClock(t)| >= 8
    ensures !TimerCardVisible(t) <==> t.NoTime? || t.NaN? || t.n <= 0
  {
    if TimerCardVisible(t) {
      FormatClockFields(t.n);
    }
  }

  /* ----- The contact form ----- */

  datatype ContactField = FullName | PhoneNumber | Description

  datatype ContactForm = ContactForm(fullName: string, phoneNumber: string, description: string)

  /** The form and whether the (translated) phone error is shown. */
  datatype ContactState = ContactState(form: ContactForm, phoneError: bool)

  const MaxPhoneLength := 14

  function FieldOf(form: ContactForm, field: ContactField): string {
    match field
    case FullName => form.fullName
    case PhoneNumber => form.phoneNumber
    case Description => form.description
  }

  function WithField(form: ContactForm, field: ContactField, value: string): ContactForm {
    match field
    case FullName => form.(fullName := value)
    case PhoneNumber => form.(phoneNumber := value)
    case Description => form.(description := value)
  }

  /** `handleChange`: a phone number longer than 14 UTF-16 units is refused
      (form unchanged, error shown); an acceptable one clears the error; any
      other field is simply set. */
  function Change(st: ContactState, field: ContactField, value: string): (r: ContactState)
    ensures field == PhoneNumber && Utf16Length(value) > MaxPhoneLength ==>
      r.form == st.form && r.phoneError
    ensures !(field == PhoneNumber && Utf16Length(value) > MaxPhoneLength) ==>
      && FieldOf(r.form, field) == value
      && (forall other :: other != field ==> FieldOf(r.form, other) == FieldOf(st.form, other))
    ensures field == PhoneNumber && Utf16Length(value) <= MaxPhoneLength ==> !r.phoneError
    ensures field != PhoneNumber ==> r.phoneError == st.phoneError
  {
    if field == PhoneNumber && Utf16Length(value) > MaxPhoneLength then st.(phoneError := true)
    else
      var phoneError := if field == PhoneNumber then false else st.phoneError;
      ContactState(WithField(st.form, field, value), phoneError)
  }

  /** Whatever is typed, the stored phone number stays within 14 UTF-16
      units once it starts there. */
  lemma PhoneStaysShort(st: ContactState, field: ContactField, value: string)
    requires Utf16Length(st.form.phoneNumber) <= MaxPhoneLength
    ensures Utf16Length(Change(st, field, value).form.phoneNumber) <= MaxPhoneLength
  {
    assert st.form.phoneNumber == FieldOf(st.form, PhoneNumber);
  }

  const EmptyForm := ContactForm("", "", "")

  /** The form after a submission: emptied when the post succeeded, kept
      when it failed (the failure is only reported in an alert). */
  function AfterSubmit(st: ContactState, succeeded: bool): (r: ContactState)
    ensures succeeded ==> forall f :: FieldOf(r.form, f) == ""
    ensures !succeeded ==> r == st
    ensures r.phoneError == st.phoneError
  {
    if succeeded then st.(form := EmptyForm) else st
  }
}
