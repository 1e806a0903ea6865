/** The two decoders of EdiManager/EdimaxUtils.cs that turn device values
    into readable text: `GetCodeDescription` for the cloud status codes and
    `ExplainSchedule` for the hex-encoded day schedule of a plug. */
module Decoders {
  import opened Wrappers
  import opened Text

  // ---------------------------------------------------------------------
  // Status codes

  const UnknownCodePrefix: string := "Unknown code: "

  /** `GetCodeDescription`. A null code falls through to the default
      branch, where concatenating null adds nothing. */
  function CodeDescription(code: Option<string>): (r: string)
    ensures |r| > 0
    ensures r == "Offline" <==> code == Some("5000")
    ensures r == "Bad password" <==> code == Some("1120")
    ensures r == "Online" <==> code == Some("1020")
    ensures code != Some("5000") && code != Some("1120") && code != Some("1020") ==>
      StartsWith(r, UnknownCodePrefix) && r[|UnknownCodePrefix|..] == code.GetOr("")
  {
    if code == Some("5000") then "Offline"
    else if code == Some("1120") then "Bad password"
    else if code == Some("1020") then "Online"
    else UnknownCodePrefix + code.GetOr("")
  }

  /** Two codes get the same description exactly when they are the same
      text, null counting as the empty text. */
  lemma CodeDescriptionInjective(a: Option<string>, b: Option<string>)
    ensures CodeDescription(a) == CodeDescription(b) <==> a.GetOr("") == b.GetOr("")
  {
    var da, db := CodeDescription(a), CodeDescription(b);
    if a.GetOr("") == b.GetOr("") {
      assert a.None? || b.None? ==> a.GetOr("") == "" && b.GetOr("") == "";
    }
    if da == db {
      if StartsWith(da, UnknownCodePrefix) {
        assert da[|UnknownCodePrefix|..] == db[|UnknownCodePrefix|..];
      }
    }
  }

  // ---------------------------------------------------------------------
  // Schedule: hex digits to a bit string

  /** `Convert.ToInt16(c, 16)` on a one-character string: a hex digit of
      either case, anything else throws. */
  function HexDigit(c: char): (r: Option<nat>)
    ensures r.Some? <==> '0' <= c <= '9' || 'a' <= c <= 'f' || 'A' <= c <= 'F'
    ensures r.Some? ==> r.value < 16
    ensures '0' <= c <= '9' ==> r == Some(c as int - '0' as int)
    ensures 'a' <= c <= 'f' ==> r == Some(c as int - 'a' as int + 10)
    ensures 'A' <= c <= 'F' ==> r == Some(c as int - 'A' as int + 10)
  {
    if '0' <= c <= '9' then Some(c as int - '0' as int)
    else if 'a' <= c <= 'f' then Some(c as int - 'a' as int + 10)
    else if 'A' <= c <= 'F' then Some(c as int - 'A' as int + 10)
    else None
  }

  /** The bit string of `ExplainSchedule` holds only '0' and '1'; it is
      modelled as booleans, '1' being true. */
  function BitValue(b: bool): nat { if b then 1 else 0 }

  /** The value of a bit string, most significant bit first. */
  function BinaryValue(s: seq<bool>): nat {
    if |s| == 0 then 0 else 2 * BinaryValue(s[..|s| - 1]) + BitValue(s[|s| - 1])
  }

  /** `Convert.ToString(n, 2)`: binary digits without leading zeros ("0"
      for zero). */
  function Binary(n: nat): (r: seq<bool>)
    ensures |r| >= 1
    ensures n < 2 ==> |r| == 1
    ensures n < 4 ==> |r| <= 2
    ensures n < 8 ==> |r| <= 3
    ensures n < 16 ==> |r| <= 4
  {
    if n < 2 then [n == 1] else Binary(n / 2) + [n % 2 == 1]
  }

  lemma {:induction false} BinaryValueOfBinary(n: nat)
    ensures BinaryValue(Binary(n)) == n
  {
    if n >= 2 {
      var r := Binary(n);
      assert r[..|r| - 1] == Binary(n / 2);
      BinaryValueOfBinary(n / 2);
    }
  }

  /** Leading zeros do not change a binary value. */
  lemma {:induction false} BinaryValueLeadingZero(s: seq<bool>)
    ensures BinaryValue([false] + s) == BinaryValue(s)
  {
    if |s| > 0 {
      assert ([false] + s)[..|s|] == [false] + s[..|s| - 1];
      BinaryValueLeadingZero(s[..|s| - 1]);
    }
  }

  lemma {:induction false} BinaryValueZeros(z: seq<bool>, s: seq<bool>)
    requires forall i :: 0 <= i < |z| ==> !z[i]
    ensures BinaryValue(z + s) == BinaryValue(s)
  {
    if |z| > 0 {
      BinaryValueZeros(z[1..], s);
      assert z + s == [false] + (z[1..] + s);
      BinaryValueLeadingZero(z[1..] + s);
    } else {
      assert z + s == s;
    }
  }

  /** One hex digit as the four bits `PadLeft(4, '0')` makes of its binary
      form. */
  function Nibble(v: nat): (r: seq<bool>)
    requires v < 16
    ensures |r| == 4
  {
    PadLeft(Binary(v), 4, false)
  }

  /** Padding with zeros on the left keeps the value. */
  lemma PadZeros(b: seq<bool>)
    requires |b| <= 4
    ensures BinaryValue(PadLeft(b, 4, false)) == BinaryValue(b)
  {
    var n := PadLeft(b, 4, false);
    var z := n[..4 - |b|];
    assert n == z + b;
    BinaryValueZeros(z, b);
  }

  /** The four bits of a nibble are the binary digits of its value. */
  lemma NibbleValue(v: nat)
    requires v < 16
    ensures BinaryValue(Nibble(v)) == v
  {
    PadZeros(Binary(v));
    BinaryValueOfBinary(v);
  }

  predicate AllHex(s: string) {
    forall j :: 0 <= j < |s| ==> HexDigit(s[j]).Some?
  }

  /** The first loop of `ExplainSchedule` over a string of hex digits: the
      four bits of each digit, in order; bit `i` is bit `i % 4` of digit
      `i / 4`. */
  function HexBits(s: string): (b: seq<bool>)
    requires AllHex(s)
    ensures |b| == 4 * |s|
  {
    seq(4 * |s|, i requires 0 <= i < 4 * |s| => Nibble(HexDigit(s[i / 4]).value)[i % 4])
  }

  /** The bit string the first loop builds, or None when some character is
      not a hex digit (the conversion throws). */
  function ScheduleBinary(schedule: string): (r: Option<seq<bool>>)
    ensures r.Some? <==> AllHex(schedule)
    ensures r.Some? ==> |r.value| == 4 * |schedule|
  {
    if AllHex(schedule) then Some(HexBits(schedule)) else None
  }

  /** The four bits that hex digit `j` expands to. */
  function Quad(b: seq<bool>, j: nat): seq<bool>
    requires 4 * j + 4 <= |b|
  {
    b[4 * j..4 * j + 4]
  }

  /** Each hex digit owns four consecutive bits, most significant first,
      whose value is the digit's value. */
  lemma HexBitsDigit(s: string, j: nat)
    requires AllHex(s) && j < |s|
    ensures BinaryValue(Quad(HexBits(s), j)) == HexDigit(s[j]).value
  {
    HexBitsQuad(s, j);
    NibbleValue(HexDigit(s[j]).value);
  }

  /** Digit `j` expands to the four bits at `4 * j`. */
  lemma HexBitsQuad(s: string, j: nat)
    requires AllHex(s) && j < |s|
    ensures Quad(HexBits(s), j) == Nibble(HexDigit(s[j]).value)
  {
    var n := Nibble(HexDigit(s[j]).value);
    var b := HexBits(s);
    forall k | 0 <= k < 4
      ensures Quad(b, j)[k] == n[k]
    {
      var i := 4 * j + k;
      DivMod4(j, k);
      assert Quad(b, j)[k] == b[i];
      HexBitAt(s, i);
    }
  }

  lemma HexBitAt(s: string, i: nat)
    requires AllHex(s) && i < 4 * |s|
    ensures HexBits(s)[i] == Nibble(HexDigit(s[i / 4]).value)[i % 4]
  {
  }

  lemma DivMod4(j: nat, k: nat)
    requires k < 4
    ensures (4 * j + k) / 4 == j && (4 * j + k) % 4 == k
  {
  }

  // ---------------------------------------------------------------------
  // Schedule: change records

  /** One entry of the `changes` list: the minute and the new state. */
  datatype Change = Change(minute: nat, on: bool)

  /** A record is due at minute 0 and wherever the bit differs from the one
      before it. */
  predicate IsChange(bits: seq<bool>, i: nat)
    requires i < |bits|
  {
    i == 0 || bits[i] != bits[i - 1]
  }

  /** The second loop of `ExplainSchedule` from position `i` on, with
      `state` the bit last recorded (None for the initial space). */
  function ChangesFrom(bits: seq<bool>, i: nat, state: Option<bool>): (r: seq<Change>)
    requires i <= |bits|
    requires i == 0 ==> state.None?
    requires i > 0 ==> state == Some(bits[i - 1])
    ensures forall k :: 0 <= k < |r| ==>
      i <= r[k].minute < |bits| && IsChange(bits, r[k].minute) && r[k].on == bits[r[k].minute]
    decreases |bits| - i
  {
    if i == |bits| then []
    else if Some(bits[i]) != state then [Change(i, bits[i])] + ChangesFrom(bits, i + 1, Some(bits[i]))
    else ChangesFrom(bits, i + 1, state)
  }

  function Changes(bits: seq<bool>): seq<Change> {
    ChangesFrom(bits, 0, None)
  }

  /** The minutes of a list of records. */
  function Minutes(cs: seq<Change>): (ms: seq<nat>)
    ensures |ms| == |cs| && forall k :: 0 <= k < |cs| ==> ms[k] == cs[k].minute
  {
    seq(|cs|, k requires 0 <= k < |cs| => cs[k].minute)
  }

  lemma MinutesCons(c: Change, rest: seq<Change>)
    ensures Minutes([c] + rest) == [c.minute] + Minutes(rest)
  {
  }

  /** One step of the second loop: a record at `i` when the bit there
      differs from the state, then the records from `i + 1`. */
  lemma ChangesStep(bits: seq<bool>, i: nat, state: Option<bool>)
    requires i < |bits|
    requires i == 0 ==> state.None?
    requires i > 0 ==> state == Some(bits[i - 1])
    ensures IsChange(bits, i) <==> Some(bits[i]) != state
    ensures IsChange(bits, i) ==>
      ChangesFrom(bits, i, state) == [Change(i, bits[i])] + ChangesFrom(bits, i + 1, Some(bits[i]))
    ensures !IsChange(bits, i) ==> ChangesFrom(bits, i, state) == ChangesFrom(bits, i + 1, Some(bits[i]))
  {
  }

  /** No change point from `i` on is missed. */
  lemma {:induction false} ChangesComplete(bits: seq<bool>, i: nat, state: Option<bool>)
    requires i <= |bits|
    requires i == 0 ==> state.None?
    requires i > 0 ==> state == Some(bits[i - 1])
    ensures forall m :: i <= m < |bits| && IsChange(bits, m) ==> m in Minutes(ChangesFrom(bits, i, state))
    decreases |bits| - i
  {
    if i < |bits| {
      var r1 := ChangesFrom(bits, i + 1, Some(bits[i]));
      ChangesComplete(bits, i + 1, Some(bits[i]));
      ChangesStep(bits, i, state);
      if IsChange(bits, i) {
        MinutesCons(Change(i, bits[i]), r1);
      }
    }
  }

  /** Records in increasing minutes whose states alternate. */
  predicate Alternating(r: seq<Change>) {
    forall k :: 0 <= k < |r| - 1 ==> r[k].minute < r[k + 1].minute && r[k].on != r[k + 1].on
  }

  lemma AlternatingCons(c: Change, r: seq<Change>)
    requires Alternating(r)
    requires |r| > 0 ==> c.minute < r[0].minute && c.on != r[0].on
    ensures Alternating([c] + r)
  {
    var r' := [c] + r;
    forall k | 0 < k < |r'| - 1
      ensures r'[k].minute < r'[k + 1].minute && r'[k].on != r'[k + 1].on
    {
      assert r'[k] == r[k - 1] && r'[k + 1] == r[k];
    }
  }

  /** The records come in increasing minutes with alternating states, the
      first one differing from the state it starts from. */
  lemma {:induction false} ChangesAlternate(bits: seq<bool>, i: nat, state: Option<bool>)
    requires i <= |bits|
    requires i == 0 ==> state.None?
    requires i > 0 ==> state == Some(bits[i - 1])
    ensures var r := ChangesFrom(bits, i, state);
      Alternating(r) && (|r| > 0 ==> Some(r[0].on) != state)
    decreases |bits| - i
  {
    if i < |bits| {
      var r1 := ChangesFrom(bits, i + 1, Some(bits[i]));
      ChangesAlternate(bits, i + 1, Some(bits[i]));
      ChangesStep(bits, i, state);
      if IsChange(bits, i) {
        AlternatingCons(Change(i, bits[i]), r1);
      }
    }
  }

  /** Once the bits stay equal to the state, no further record is made. */
  lemma {:induction false} ChangesSteady(bits: seq<bool>, i: nat)
    requires 0 < i <= |bits|
    requires forall m :: i <= m < |bits| ==> bits[m] == bits[i - 1]
    ensures ChangesFrom(bits, i, Some(bits[i - 1])) == []
    decreases |bits| - i
  {
    if i < |bits| {
      ChangesSteady(bits, i + 1);
    }
  }

  /** `n.ToString().PadLeft(2, '0')`. */
  function Pad2(n: nat): string {
    PadLeft(Decimal(n), 2, '0')
  }

  /** The `{hours}:{minutes}` time of a minute of the day. */
  function Time(minute: nat): string {
    Pad2(minute / 60) + ":" + Pad2(minute % 60)
  }

  /** One record, `time=ON` or `time=OFF`. */
  function Record(c: Change): string {
    Time(c.minute) + "=" + (if c.on then "ON" else "OFF")
  }

  function Records(cs: seq<Change>): (r: seq<string>)
    ensures |r| == |cs| && forall k :: 0 <= k < |cs| ==> r[k] == Record(cs[k])
  {
    seq(|cs|, k requires 0 <= k < |cs| => Record(cs[k]))
  }

  /** Why `ExplainSchedule` throws. */
  datatype ScheduleError = NotHexDigit(position: nat)

  /** `ExplainSchedule`. */
  function ExplainSchedule(schedule: Option<string>): (r: Result<string, ScheduleError>)
    ensures IsNullOrEmpty(schedule) ==> r == Success("notset")
    ensures r.Failure? <==> schedule.Some? && exists j :: 0 <= j < |schedule.value| && HexDigit(schedule.value[j]).None?
    ensures r.Failure? ==> r.error.position < |schedule.value| && HexDigit(schedule.value[r.error.position]).None?
  {
    if IsNullOrEmpty(schedule) then Success("notset")
    else match ScheduleBinary(schedule.value)
      case None => Failure(NotHexDigit(FirstNonHex(schedule.value)))
      case Some(bits) => Success(Join(Records(Changes(bits)), ";"))
  }

  function FirstNonHex(s: string): (j: nat)
    requires exists j :: 0 <= j < |s| && HexDigit(s[j]).None?
    ensures j < |s| && HexDigit(s[j]).None?
    ensures forall i :: 0 <= i < j ==> HexDigit(s[i]).Some?
  {
    if HexDigit(s[0]).None? then 0 else 1 + FirstNonHex(s[1..])
  }

  // ---------------------------------------------------------------------
  // Properties of the explanation

  /** The records of a bit string are exactly its change points, in
      order: the first at minute 0, each giving the bit there, and their
      states alternate. */
  lemma ChangesExact(bits: seq<bool>)
    requires |bits| > 0
    ensures var cs := Changes(bits);
      && (forall m :: 0 <= m < |bits| ==> (IsChange(bits, m) <==> m in Minutes(cs)))
      && (forall k :: 0 <= k < |cs| ==> cs[k].on == bits[cs[k].minute])
      && Alternating(cs)
      && |cs| > 0 && cs[0].minute == 0
  {
    ChangesComplete(bits, 0, None);
    ChangesAlternate(bits, 0, None);
    assert IsChange(bits, 0);
  }

  /** The explanation of a hex schedule joins with ';' the records of the
      change points of its bits, four per digit. */
  lemma ExplainRecords(schedule: string)
    requires |schedule| > 0 && AllHex(schedule)
    ensures ExplainSchedule(Some(schedule)) == Success(Join(Records(Changes(HexBits(schedule))), ";"))
    ensures |HexBits(schedule)| == 4 * |schedule|
    ensures forall j :: 0 <= j < |schedule| ==> BinaryValue(Quad(HexBits(schedule), j)) == HexDigit(schedule[j]).value
  {
    forall j | 0 <= j < |schedule|
      ensures BinaryValue(Quad(HexBits(schedule), j)) == HexDigit(schedule[j]).value
    {
      HexBitsDigit(schedule, j);
    }
  }

  /** A schedule of zeros only, of any length, is off all day: one record. */
  lemma AllOff(schedule: string)
    requires |schedule| > 0 && forall j :: 0 <= j < |schedule| ==> schedule[j] == '0'
    ensures ExplainSchedule(Some(schedule)) == Success("00:00=OFF")
  {
    ZerosAllHex(schedule);
    var bits := HexBits(schedule);
    ZeroBits(schedule);
    ChangesSteady(bits, 1);
    ExplainRecords(schedule);
    assert Changes(bits) == [Change(0, false)];
    MidnightOff();
  }

  lemma ZerosAllHex(s: string)
    requires forall j :: 0 <= j < |s| ==> s[j] == '0'
    ensures AllHex(s)
  {
  }

  /** Zero digits expand to zero bits. */
  lemma ZeroBits(s: string)
    requires forall j :: 0 <= j < |s| ==> s[j] == '0'
    ensures AllHex(s) && forall i :: 0 <= i < |HexBits(s)| ==> !HexBits(s)[i]
  {
    ZerosAllHex(s);
    assert Nibble(0) == [false, false, false, false] by {
      assert Binary(0) == [false];
    }
    forall i | 0 <= i < |HexBits(s)|
      ensures !HexBits(s)[i]
    {
      assert HexDigit(s[i / 4]) == Some(0);
    }
  }

  /** The text of a single off record at midnight. */
  lemma MidnightOff()
    ensures Join(Records([Change(0, false)]), ";") == "00:00=OFF"
  {
    assert Decimal(0) == "0";
    assert Pad2(0) == "00";
    assert Record(Change(0, false)) == "00:00=OFF";
    assert Records([Change(0, false)]) == ["00:00=OFF"];
  }

  /** Padding keeps a string of digits all digits. */
  lemma Pad2Digits(n: nat)
    ensures AllDigits(Pad2(n)) && |Pad2(n)| >= 2
  {
    var d := Decimal(n);
    var p := Pad2(n);
    forall i | 0 <= i < |p|
      ensures IsDigit(p[i])
    {
      if i >= |p| - |d| {
        assert p[i] == p[|p| - |d|..][i - (|p| - |d|)];
      }
    }
  }

  /** Two-digit padding of a number below 100 can be read back. */
  lemma Pad2Value(n: nat)
    requires n < 100
    ensures |Pad2(n)| == 2 && AllDigits(Pad2(n)) && DigitsValue(Pad2(n)) == n
  {
    DigitsValueOfDecimal(n);
    Pad2Digits(n);
    var d := Decimal(n);
    if n < 10 {
      var p := Pad2(n);
      assert p == ['0', d[0]];
      assert p[..1] == ['0'];
      assert p[..1][..0] == [];
      assert d[..0] == [];
    } else {
      assert |Decimal(n / 10)| == 1;
      assert Pad2(n) == d;
    }
  }

  /** For the minutes of up to 100 hours, the time text of a record is
      `hh:mm` and reading its digits back gives the minute. */
  lemma TimeReadsBack(minute: nat)
    requires minute < 6000
    ensures var t := Time(minute);
      && |t| == 5 && t[2] == ':' && AllDigits(t[..2]) && AllDigits(t[3..])
      && DigitsValue(t[..2]) * 60 + DigitsValue(t[3..]) == minute
  {
    var h, m := minute / 60, minute % 60;
    TimeParts(h, m);
    assert h * 60 + m == minute;
  }

  /** The two fields of `hh:mm`, each read back. */
  lemma TimeParts(h: nat, m: nat)
    requires h < 100 && m < 100
    ensures var t := Pad2(h) + ":" + Pad2(m);
      && |t| == 5 && t[2] == ':' && AllDigits(t[..2]) && AllDigits(t[3..])
      && DigitsValue(t[..2]) == h && DigitsValue(t[3..]) == m
  {
    Pad2Value(h);
    Pad2Value(m);
    AroundColon(Pad2(h), Pad2(m));
  }

  lemma AroundColon(a: string, b: string)
    requires |a| == 2
    ensures var t := a + ":" + b;
      |t| == 3 + |b| && t[2] == ':' && t[..2] == a && t[3..] == b
  {
  }

  // ---------------------------------------------------------------------
  // The week

  const Weekdays: seq<string> := ["SUN", "MON", "TUE", "WED", "THU", "FRI", "SAT"]

  /** Which of the days have a schedule whose explanation throws. */
  function Failing(days: seq<Option<string>>): (f: seq<bool>)
    ensures |f| == |days| && forall i :: 0 <= i < |days| ==> f[i] == ExplainSchedule(days[i]).Failure?
  {
    seq(|days|, i requires 0 <= i < |days| => ExplainSchedule(days[i]).Failure?)
  }

  /** The seven parts of the explanation, each day behind its weekday. */
  function WeekParts(days: seq<Option<string>>): (parts: seq<string>)
    requires |days| == 7 && true !in Failing(days)
    ensures |parts| == 7
  {
    seq(7, i requires 0 <= i < 7 => Weekdays[i] + ":" + ExplainSchedule(days[i]).value)
  }

  /** The `ScheduleExplanation` of the schedule command: the seven day
      explanations, each behind its weekday, joined by '/'. The first day
      whose schedule is not hex makes the whole command throw, with that
      day's error. */
  function WeekExplanation(days: seq<Option<string>>): (r: Result<string, ScheduleError>)
    requires |days| == 7
    ensures r.Failure? <==> exists i :: 0 <= i < 7 && ExplainSchedule(days[i]).Failure?
    ensures r.Failure? ==> exists i :: 0 <= i < 7 && ExplainSchedule(days[i]) == Failure(r.error) &&
                                       forall j :: 0 <= j < i ==> ExplainSchedule(days[j]).Success?
  {
    var f := Failing(days);
    var k := Find(f, true);
    if k >= 0 then
      assert forall j :: 0 <= j < k ==> f[..k][j] == f[j];
      Failure(ExplainSchedule(days[k]).error)
    else
      Success(Join(WeekParts(days), "/"))
  }

  /** The text of a record holds digits, ':', '=' and letters only. */
  lemma RecordHasNoSlash(c: Change)
    ensures '/' !in Record(c)
  {
    var a, b := Pad2(c.minute / 60), Pad2(c.minute % 60);
    Pad2Digits(c.minute / 60);
    Pad2Digits(c.minute % 60);
    DigitsNoSlash(a);
    DigitsNoSlash(b);
    var state := if c.on then "ON" else "OFF";
    assert '/' !in state;
    assert Record(c) == a + ":" + b + "=" + state;
  }

  lemma DigitsNoSlash(d: string)
    requires AllDigits(d)
    ensures '/' !in d
  {
    forall i | 0 <= i < |d| ensures d[i] != '/' { assert IsDigit(d[i]); }
  }

  /** No explanation of a day contains '/'. */
  lemma ExplainHasNoSlash(schedule: Option<string>)
    requires ExplainSchedule(schedule).Success?
    ensures '/' !in ExplainSchedule(schedule).value
  {
    if !IsNullOrEmpty(schedule) {
      var bits := ScheduleBinary(schedule.value).value;
      var rs := Records(Changes(bits));
      forall k | 0 <= k < |rs|
        ensures '/' !in rs[k]
      {
        RecordHasNoSlash(Changes(bits)[k]);
      }
      JoinExcludes(rs, ";", '/');
    }
  }

  /** Splitting the week explanation on '/' gives back the seven days in
      order, each as weekday, ':', explanation. */
  lemma WeekSplits(days: seq<Option<string>>)
    requires |days| == 7 && WeekExplanation(days).Success?
    ensures var parts := Split(WeekExplanation(days).value, '/');
      |parts| == 7 && forall i :: 0 <= i < 7 ==> parts[i] == Weekdays[i] + ":" + ExplainSchedule(days[i]).value
  {
    var f := Failing(days);
    assert Find(f, true) < 0;
    var parts := WeekParts(days);
    assert WeekExplanation(days).value == Join(parts, "/");
    forall i | 0 <= i < 7
      ensures '/' !in parts[i]
    {
      WeekPartNoSlash(days, i);
    }
    SplitJoin(parts, '/');
  }

  lemma WeekPartNoSlash(days: seq<Option<string>>, i: nat)
    requires |days| == 7 && true !in Failing(days) && i < 7
    ensures '/' !in WeekParts(days)[i]
  {
    assert !Failing(days)[i];
    ExplainHasNoSlash(days[i]);
    WeekdayNoSlash(i);
    assert WeekParts(days)[i] == Weekdays[i] + ":" + ExplainSchedule(days[i]).value;
  }

  lemma WeekdayNoSlash(i: nat)
    requires i < 7
    ensures '/' !in Weekdays[i]
  {
    var w := Weekdays[i];
    assert |w| == 3;
    assert w[0] != '/' && w[1] != '/' && w[2] != '/';
  }
}
