/**
 * The value helpers of the clock firmware (ClockUtils.cpp): splitting a
 * separated string, decimal and BCD conversions, hex digits, and the
 * fixed-layout text the clock prints.
 */
module ClockUtils {
  import opened Arduino

  // ---------------------------------------------------------------------------
  // Splitting on a separator
  // ---------------------------------------------------------------------------

  /** No separator among `s[lo..hi]`. */
  predicate NoSepBetween(s: string, sep: char, lo: nat, hi: nat)
    requires lo <= hi <= |s|
  {
    sep !in s[lo..hi]
  }

  /** The parts joined with `sep` between them. */
  function Join(parts: seq<string>, sep: char): string
  {
    if |parts| == 0 then ""
    else if |parts| == 1 then parts[0]
    else Join(parts[..|parts| - 1], sep) + [sep] + parts[|parts| - 1]
  }

  predicate AllSepFree(parts: seq<string>, sep: char) {
    forall k | 0 <= k < |parts| :: sep !in parts[k]
  }

  /** Does getValue close a field at position `i`?  At a separator, and at the last character. */
  predicate IsCut(data: string, sep: char, i: nat)
    requires i < |data|
  {
    data[i] == sep || i == |data| - 1
  }

  /** Where the field still open after getValue has looked at `data[..i]` starts. */
  function OpenStart(data: string, sep: char, i: nat): (p: nat)
    requires i <= |data|
    ensures p <= i
  {
    if i == 0 then 0 else if IsCut(data, sep, i - 1) then i else OpenStart(data, sep, i - 1)
  }

  /**
   * The field closed at cut `i`: up to the separator, or, at the last
   * character, up to the end of `data`, the last character included even
   * when it is a separator.
   */
  function ClosedAt(data: string, sep: char, i: nat): string
    requires i < |data|
  {
    data[OpenStart(data, sep, i)..if i == |data| - 1 then |data| else i]
  }

  /** The fields getValue has closed after looking at `data[..i]`, in order. */
  function ClosedFields(data: string, sep: char, i: nat): seq<string>
    requires i <= |data|
  {
    if i == 0 then []
    else if IsCut(data, sep, i - 1) then ClosedFields(data, sep, i - 1) + [ClosedAt(data, sep, i - 1)]
    else ClosedFields(data, sep, i - 1)
  }

  /**
   * The fields getValue sees in `data`.  A trailing separator stays inside
   * the last field, and no empty field follows it.
   */
  function Fields(data: string, sep: char): seq<string>
  {
    ClosedFields(data, sep, |data|)
  }

  /**
   * What `getValue(data, sep, index)` returns: field `index`, or "" past the
   * last field.  A negative index makes the code call `substring(0, -1)`,
   * which Arduino's unsigned bounds turn into the whole string.
   */
  function FieldAt(data: string, sep: char, index: int): string
  {
    if index < 0 then data
    else if index < |Fields(data, sep)| then Fields(data, sep)[index]
    else ""
  }

  /** Scanning further only adds fields. */
  lemma {:induction false} ClosedFieldsGrow(data: string, sep: char, i: nat, j: nat)
    requires i <= j <= |data|
    ensures ClosedFields(data, sep, i) <= ClosedFields(data, sep, j)
    decreases j - i
  {
    if i < j {
      ClosedFieldsGrow(data, sep, i, j - 1);
    }
  }

  /** Scanning characters that are neither separators nor the last one closes nothing. */
  lemma {:induction false} ScanSepFree(data: string, sep: char, p: nat, q: nat)
    requires p <= q < |data| && NoSepBetween(data, sep, p, q)
    ensures ClosedFields(data, sep, q) == ClosedFields(data, sep, p)
    ensures OpenStart(data, sep, q) == OpenStart(data, sep, p)
    decreases q - p
  {
    if p < q {
      assert data[p..q] == data[p..q - 1] + [data[q - 1]];
      ScanSepFree(data, sep, p, q - 1);
    }
  }

  /** A separator that is not the last character closes the open field, which is free of separators. */
  lemma CloseAtSep(data: string, sep: char, lo: nat, q: nat, done: seq<string>)
    requires lo <= q && q + 1 < |data| && data[q] == sep && NoSepBetween(data, sep, lo, q)
    requires ClosedFields(data, sep, lo) == done && OpenStart(data, sep, lo) == lo
    ensures ClosedFields(data, sep, q + 1) == done + [data[lo..q]]
    ensures OpenStart(data, sep, q + 1) == q + 1
  {
    ScanSepFree(data, sep, lo, q);
  }

  /**
   * Scanning a string that starts with `Join(parts, sep)` up to where the last
   * part starts closes all the other parts.
   */
  lemma {:induction false} ScanToLastPart(parts: seq<string>, sep: char, data: string)
    requires |parts| > 0 && AllSepFree(parts, sep) && Join(parts, sep) <= data
    requires |Join(parts, sep)| - |parts[|parts| - 1]| < |data|
    ensures var lo := |Join(parts, sep)| - |parts[|parts| - 1]|;
      && 0 <= lo
      && ClosedFields(data, sep, lo) == parts[..|parts| - 1]
      && OpenStart(data, sep, lo) == lo
      && data[lo..|Join(parts, sep)|] == parts[|parts| - 1]
  {
    var n := |parts|;
    if n > 1 {
      var init := parts[..n - 1];
      var j' := Join(init, sep);
      var last := init[n - 2];
      assert AllSepFree(init, sep);
      assert Join(parts, sep) == j' + [sep] + parts[n - 1];
      ScanToLastPart(init, sep, data);
      var lo' := |j'| - |last|;
      assert data[lo'..|j'|] == last && sep !in last;
      CloseAtSep(data, sep, lo', |j'|, init[..n - 2]);
      assert init[..n - 2] + [last] == init;
      assert |Join(parts, sep)| - |parts[n - 1]| == |j'| + 1;
      assert ClosedFields(data, sep, |j'| + 1) == init;
    } else {
      assert |Join(parts, sep)| - |parts[n - 1]| == 0;
    }
  }

  /** Once the scan reaches the start of a last field free of separators, that field closes the list. */
  lemma CloseLast(data: string, sep: char, lo: nat, init: seq<string>)
    requires lo < |data| && NoSepBetween(data, sep, lo, |data| - 1)
    requires ClosedFields(data, sep, lo) == init && OpenStart(data, sep, lo) == lo
    ensures Fields(data, sep) == init + [data[lo..]]
  {
    ScanSepFree(data, sep, lo, |data| - 1);
    assert ClosedAt(data, sep, |data| - 1) == data[lo..];
  }

  /**
   * getValue's fields of separator-free parts joined with `sep`, the last
   * part non-empty, are those parts.
   */
  lemma FieldsOfJoin(parts: seq<string>, sep: char)
    requires |parts| > 0 && AllSepFree(parts, sep) && parts[|parts| - 1] != []
    ensures Fields(Join(parts, sep), sep) == parts
  {
    var n := |parts|;
    var data := Join(parts, sep);
    ScanToLastPart(parts, sep, data);
    var lo := |data| - |parts[n - 1]|;
    assert data[lo..|data| - 1] + [data[|data| - 1]] == parts[n - 1];
    CloseLast(data, sep, lo, parts[..n - 1]);
    assert parts == parts[..n - 1] + [parts[n - 1]];
  }

  /**
   * A trailing separator is kept inside the last field: getValue sees
   * `Join(parts, sep) + [sep]` as `parts` with `sep` appended to the last one.
   */
  lemma TrailingSepKept(parts: seq<string>, sep: char)
    requires |parts| > 0 && AllSepFree(parts, sep)
    ensures Fields(Join(parts, sep) + [sep], sep) == parts[..|parts| - 1] + [parts[|parts| - 1] + [sep]]
  {
    var n := |parts|;
    var data := Join(parts, sep) + [sep];
    var lo := TrailingSepScan(parts, sep);
    CloseLast(data, sep, lo, parts[..n - 1]);
  }

  /** Where the last field of `Join(parts, sep) + [sep]` starts, and what getValue's scan has closed there. */
  lemma TrailingSepScan(parts: seq<string>, sep: char) returns (lo: nat)
    requires |parts| > 0 && AllSepFree(parts, sep)
    ensures var data := Join(parts, sep) + [sep];
      && lo < |data| && NoSepBetween(data, sep, lo, |data| - 1)
      && ClosedFields(data, sep, lo) == parts[..|parts| - 1] && OpenStart(data, sep, lo) == lo
      && data[lo..] == parts[|parts| - 1] + [sep]
  {
    var n := |parts|;
    var j := Join(parts, sep);
    var data := j + [sep];
    ScanToLastPart(parts, sep, data);
    lo := |j| - |parts[n - 1]|;
    assert data[lo..|data| - 1] == parts[n - 1] && sep !in parts[n - 1];
    assert data[lo..] == parts[n - 1] + [sep];
  }

  /** getValue on joined parts: part `index`, "" past the last part, everything for a negative index. */
  lemma FieldAtJoin(parts: seq<string>, sep: char, index: int)
    requires |parts| > 0 && AllSepFree(parts, sep) && parts[|parts| - 1] != []
    ensures 0 <= index < |parts| ==> FieldAt(Join(parts, sep), sep, index) == parts[index]
    ensures index >= |parts| ==> FieldAt(Join(parts, sep), sep, index) == ""
    ensures index < 0 ==> FieldAt(Join(parts, sep), sep, index) == Join(parts, sep)
  {
    FieldsOfJoin(parts, sep);
  }

  /** The example of the quirk: `getValue("a,", ',', 0)` is "a,". */
  lemma TrailingSepExample()
    ensures FieldAt("a,", ',', 0) == "a,"
  {
    TrailingSepKept(["a"], ',');
    assert Join(["a"], ',') + [','] == "a,";
  }

  /**
   * getValue (ClockUtils.cpp): scans `data` once, counting the fields it
   * closes and remembering the bounds of the last one, and stops as soon as
   * field `index` is closed.
   */
  method GetValue(data: string, separator: char, index: Int32) returns (r: string)
    requires |data| < 0x8000_0000
    ensures r == FieldAt(data, separator, index)
  {
    var found := 0;
    var start: Int32, end: Int32 := 0, -1;  // strIndex[0], strIndex[1]
    var maxIndex := |data| - 1;
    var i := 0;
    while i <= maxIndex && found <= index
      invariant 0 <= i <= |data| && (found <= index + 1 || found == 0)
      invariant found == |ClosedFields(data, separator, i)|
      invariant found == 0 ==> start == 0 && end == -1
      invariant found > 0 ==> 0 <= start <= end <= |data|
      invariant found > 0 ==> ClosedFields(data, separator, i)[found - 1] == data[start..end]
      invariant OpenStart(data, separator, i) == if end == |data| then |data| else end + 1
    {
      if data[i] == separator || i == maxIndex {
        found := found + 1;
        start := end + 1;
        end := if i == maxIndex then i + 1 else i;
      }
      i := i + 1;
    }
    if 0 <= index < found {
      ClosedFieldsGrow(data, separator, i, |data|);
    }
    r := if found > index then Substring(data, start, end) else "";
  }

  /** `t` is `s[lo..hi]` for some bounds. */
  ghost predicate IsSliceOf(t: string, s: string) {
    exists lo, hi | 0 <= lo <= hi <= |s| :: t == s[lo..hi]
  }

  lemma {:induction false} ClosedFieldsAreSlices(data: string, sep: char, i: nat)
    requires i <= |data|
    ensures forall k | 0 <= k < |ClosedFields(data, sep, i)| :: IsSliceOf(ClosedFields(data, sep, i)[k], data)
  {
    if i > 0 {
      ClosedFieldsAreSlices(data, sep, i - 1);
      if IsCut(data, sep, i - 1) {
        var hi := if i - 1 == |data| - 1 then |data| else i - 1;
        assert IsSliceOf(data[OpenStart(data, sep, i - 1)..hi], data);
      }
    }
  }

  /** Whatever getValue returns is a substring of `data`. */
  lemma FieldAtIsSlice(data: string, sep: char, index: int)
    ensures IsSliceOf(FieldAt(data, sep, index), data)
  {
    ClosedFieldsAreSlices(data, sep, |data|);
    if index < 0 {
      assert data == data[0..|data|];
    } else if index >= |Fields(data, sep)| {
      assert FieldAt(data, sep, index) == data[0..0];
    }
  }

  /** getIntValue (ClockUtils.cpp): `atoi` of the field getValue returns. */
  method GetIntValue(data: string, separator: char, index: Int32) returns (r: Int32)
    requires |data| < 0x8000_0000
    ensures r == ToInt(FieldAt(data, separator, index))
  {
    var field := GetValue(data, separator, index);
    r := ToInt(field);
  }

  // ---------------------------------------------------------------------------
  // Dotted IP address
  // ---------------------------------------------------------------------------

  /** An `IPAddress`: four octets. */
  type IPv4 = ip: seq<Byte> | |ip| == 4 witness [0, 0, 0, 0]

  /**
   * formatIPAsString (ClockUtils.cpp): the four octets in decimal, joined by
   * dots; each octet takes one to three digits.
   */
  function FormatIPAsString(ip: IPv4): (r: string)
    ensures 7 <= |r| <= 15
  {
    assert Pow10(3) == 1000;
    NatToStringLength(ip[0], 3);
    NatToStringLength(ip[1], 3);
    NatToStringLength(ip[2], 3);
    NatToStringLength(ip[3], 3);
    NatToString(ip[0]) + "." + NatToString(ip[1]) + "." + NatToString(ip[2]) + "." + NatToString(ip[3])
  }

  function OctetTexts(ip: IPv4): (ts: seq<string>)
    ensures |ts| == 4 && forall k | 0 <= k < 4 :: ts[k] == NatToString(ip[k])
  {
    [NatToString(ip[0]), NatToString(ip[1]), NatToString(ip[2]), NatToString(ip[3])]
  }

  lemma NoDotInDigits(n: nat)
    ensures '.' !in NatToString(n)
  {
  }

  /** The dotted text is the octet texts joined by '.', none of which holds a dot. */
  lemma FormatIPIsJoin(ip: IPv4)
    ensures FormatIPAsString(ip) == Join(OctetTexts(ip), '.')
    ensures AllSepFree(OctetTexts(ip), '.')
  {
    var ts := OctetTexts(ip);
    assert ts[..3][..2][..1] == [ts[0]];
    assert Join(ts[..3][..2], '.') == ts[0] + "." + ts[1];
    assert Join(ts[..3], '.') == ts[0] + "." + ts[1] + "." + ts[2];
    NoDotInDigits(ip[0]);
    NoDotInDigits(ip[1]);
    NoDotInDigits(ip[2]);
    NoDotInDigits(ip[3]);
  }

  /** The formatted address holds exactly three dots. */
  lemma FormatIPDots(ip: IPv4)
    ensures multiset(FormatIPAsString(ip))['.'] == 3
  {
    NoDotInDigits(ip[0]);
    NoDotInDigits(ip[1]);
    NoDotInDigits(ip[2]);
    NoDotInDigits(ip[3]);
  }

  /** getIntValue(formatIPAsString(ip), '.', i) gives back octet i. */
  lemma FormatIPRoundTrip(ip: IPv4, i: nat)
    requires i < 4
    ensures FieldAt(FormatIPAsString(ip), '.', i) == NatToString(ip[i])
    ensures ToInt(FieldAt(FormatIPAsString(ip), '.', i)) == ip[i]
  {
    FormatIPIsJoin(ip);
    FieldAtJoin(OctetTexts(ip), '.', i);
    ToIntOfIntToString(ip[i]);
  }

  // ---------------------------------------------------------------------------
  // Uptime text
  // ---------------------------------------------------------------------------

  datatype Uptime = Uptime(days: int, hours: int, mins: int, secs: int)

  /** The parts secsToReadableString computes, with C's truncating division. */
  function Breakdown(t: int): Uptime
  {
    var days := TDiv(t, 86400);
    var hours := TDiv(t - days * 86400, 3600);
    var mins := TDiv(t - days * 86400 - hours * 3600, 60);
    Uptime(days, hours, mins, t - days * 86400 - hours * 3600 - mins * 60)
  }

  /** The parts add back up to the input, whatever its sign. */
  lemma BreakdownSum(t: int)
    ensures var u := Breakdown(t); u.days * 86400 + u.hours * 3600 + u.mins * 60 + u.secs == t
  {
  }

  /**
   * For a non-negative count the parts are the usual clock digits; for a
   * negative one every part is zero or negative, so no day, hour or minute
   * part is ever printed.
   */
  lemma BreakdownBounds(t: int)
    ensures var u := Breakdown(t);
      t >= 0 ==> u.days >= 0 && 0 <= u.hours < 24 && 0 <= u.mins < 60 && 0 <= u.secs < 60
    ensures var u := Breakdown(t);
      t < 0 ==> u.days <= 0 && -24 < u.hours <= 0 && -60 < u.mins <= 0 && -60 < u.secs <= 0
  {
  }

  /** The parts of a non-negative count are the only ones in clock range that add up to it. */
  lemma BreakdownUnique(t: nat, u: Uptime)
    requires u.days >= 0 && 0 <= u.hours < 24 && 0 <= u.mins < 60 && 0 <= u.secs < 60
    requires u.days * 86400 + u.hours * 3600 + u.mins * 60 + u.secs == t
    ensures Breakdown(t) == u
  {
    var rest := u.hours * 3600 + u.mins * 60 + u.secs;
    assert 0 <= rest < 86400;
    assert t / 86400 == u.days;
    assert rest / 3600 == u.hours;
    assert (u.mins * 60 + u.secs) / 60 == u.mins;
  }

  /** A part with its unit when it is > 0, nothing otherwise. */
  function UnitPart(n: int, unit: string): string
  {
    if n > 0 then IntToString(n) + unit else ""
  }

  /** The text: each part that is > 0 with its unit, then the seconds, always. */
  function UptimeText(u: Uptime): string
  {
    UnitPart(u.days, " d ") + UnitPart(u.hours, " h ") + UnitPart(u.mins, " m ") + IntToString(u.secs) + " s"
  }

  /** secsToReadableString (ClockUtils.cpp): builds the text part by part. */
  method SecsToReadableString(secsValue: Int32) returns (r: string)
    ensures r == UptimeText(Breakdown(secsValue))
  {
    var upDays := TDiv(secsValue, 86400);
    var upHours := TDiv(secsValue - upDays * 86400, 3600);
    var upMins := TDiv(secsValue - upDays * 86400 - upHours * 3600, 60);
    var secs := secsValue - upDays * 86400 - upHours * 3600 - upMins * 60;
    ghost var u := Uptime(upDays, upHours, upMins, secs);
    assert u == Breakdown(secsValue);
    r := "";
    if upDays > 0 {
      r := r + IntToString(upDays);
      r := r + " d ";
    }
    assert r == UnitPart(u.days, " d ");
    if upHours > 0 {
      r := r + IntToString(upHours);
      r := r + " h ";
    }
    assert r == UnitPart(u.days, " d ") + UnitPart(u.hours, " h ");
    if upMins > 0 {
      r := r + IntToString(upMins);
      r := r + " m ";
    }
    assert r == UnitPart(u.days, " d ") + UnitPart(u.hours, " h ") + UnitPart(u.mins, " m ");
    r := r + IntToString(secs);
    r := r + " s";
  }

  /** The text always ends with the seconds part and its unit. */
  lemma UptimeEndsWithSeconds(t: int)
    ensures var r := UptimeText(Breakdown(t)); var tail := IntToString(Breakdown(t).secs) + " s";
      |tail| <= |r| && r[|r| - |tail|..] == tail
  {
  }

  /** Below a minute, and for every negative count, only the seconds are printed. */
  lemma UptimeSecondsOnly(t: int)
    requires t < 60
    ensures UptimeText(Breakdown(t)) == IntToString(Breakdown(t).secs) + " s"
    ensures 0 <= t ==> Breakdown(t).secs == t
  {
    BreakdownBounds(t);
  }

  /** A count whose day, hour and minute parts are all non-zero prints all four parts. */
  lemma UptimeAllParts(t: int, d: nat, h: nat, m: nat, s: nat)
    requires 0 < d && 0 < h < 24 && 0 < m < 60 && s < 60
    requires t == d * 86400 + h * 3600 + m * 60 + s
    ensures UptimeText(Breakdown(t))
      == (NatToString(d) + " d ") + (NatToString(h) + " h ") + (NatToString(m) + " m ") + NatToString(s) + " s"
  {
    var u := Uptime(d, h, m, s);
    BreakdownUnique(t, u);
    assert UnitPart(d, " d ") == NatToString(d) + " d ";
    assert UnitPart(h, " h ") == NatToString(h) + " h ";
    assert UnitPart(m, " m ") == NatToString(m) + " m ";
  }

  // ---------------------------------------------------------------------------
  // Date and time text
  // ---------------------------------------------------------------------------

  /** The six fields printed with `%04d:%02d:%02d %02d:%02d:%02d` fit in `buf1[20]` with the NUL. */
  predicate TimeFits(y: Int32, m: Int32, d: Int32, h: Int32, mi: Int32, s: Int32)
  {
    |PadInt(y, 4)| + |PadInt(m, 2)| + |PadInt(d, 2)| + |PadInt(h, 2)| + |PadInt(mi, 2)| + |PadInt(s, 2)| + 5 < 20
  }

  /**
   * timeToReadableString (ClockUtils.cpp): `sprintf` into a 20-byte buffer;
   * text that would not fit overruns the buffer, so callers must keep it short.
   */
  function TimeToReadableString(y: Int32, m: Int32, d: Int32, h: Int32, mi: Int32, s: Int32): (r: string)
    requires TimeFits(y, m, d, h, mi, s)
    ensures |r| < 20
  {
    PadInt(y, 4) + ":" + PadInt(m, 2) + ":" + PadInt(d, 2) + " " + PadInt(h, 2) + ":" + PadInt(mi, 2) + ":" + PadInt(s, 2)
  }

  /**
   * A year in 0..9999 and the other fields in 0..99 always fit, and print as
   * `YYYY:MM:DD hh:mm:ss`: 19 characters, the separators in place, and each
   * field reading back as its value.
   */
  lemma TimeLayout(y: Int32, m: Int32, d: Int32, h: Int32, mi: Int32, s: Int32)
    requires 0 <= y <= 9999 && 0 <= m <= 99 && 0 <= d <= 99 && 0 <= h <= 99 && 0 <= mi <= 99 && 0 <= s <= 99
    ensures TimeFits(y, m, d, h, mi, s)
    ensures var r := TimeToReadableString(y, m, d, h, mi, s);
      && |r| == 19
      && r[4] == ':' && r[7] == ':' && r[10] == ' ' && r[13] == ':' && r[16] == ':'
      && AllDigits(r[0..4]) && DigitsValue(r[0..4]) == y
      && AllDigits(r[5..7]) && DigitsValue(r[5..7]) == m
      && AllDigits(r[8..10]) && DigitsValue(r[8..10]) == d
      && AllDigits(r[11..13]) && DigitsValue(r[11..13]) == h
      && AllDigits(r[14..16]) && DigitsValue(r[14..16]) == mi
      && AllDigits(r[17..19]) && DigitsValue(r[17..19]) == s
  {
    assert Pow10(2) == 100 && Pow10(4) == 10000;
    PadIntWidth(y, 4);
    PadIntWidth(m, 2);
    PadIntWidth(d, 2);
    PadIntWidth(h, 2);
    PadIntWidth(mi, 2);
    PadIntWidth(s, 2);
    Layout(PadInt(y, 4), PadInt(m, 2), PadInt(d, 2), PadInt(h, 2), PadInt(mi, 2), PadInt(s, 2));
  }

  /** Where the six fields sit in `a:b:c d:e:f` when they are 4, 2, 2, 2, 2 and 2 characters wide. */
  lemma Layout(a: string, b: string, c: string, d: string, e: string, f: string)
    requires |a| == 4 && |b| == 2 && |c| == 2 && |d| == 2 && |e| == 2 && |f| == 2
    ensures var r := a + ":" + b + ":" + c + " " + d + ":" + e + ":" + f;
      && |r| == 19
      && r[4] == ':' && r[7] == ':' && r[10] == ' ' && r[13] == ':' && r[16] == ':'
      && r[0..4] == a && r[5..7] == b && r[8..10] == c && r[11..13] == d && r[14..16] == e && r[17..19] == f
  {
    Field([], a, ":" + b + ":" + c + " " + d + ":" + e + ":" + f);
    Field(a + ":", b, ":" + c + " " + d + ":" + e + ":" + f);
    Field(a + ":" + b + ":", c, " " + d + ":" + e + ":" + f);
    Field(a + ":" + b + ":" + c + " ", d, ":" + e + ":" + f);
    Field(a + ":" + b + ":" + c + " " + d + ":", e, ":" + f);
    Field(a + ":" + b + ":" + c + " " + d + ":" + e + ":", f, []);
  }

  lemma Field(x: string, y: string, z: string)
    ensures (x + y + z)[|x|..|x| + |y|] == y
  {
  }

  // ---------------------------------------------------------------------------
  // Splitting into integers
  // ---------------------------------------------------------------------------

  /** Where the segment still open after `s[..i]` starts: just after the last separator in it. */
  function SegStart(s: string, sep: char, i: nat): (p: nat)
    requires i <= |s|
    ensures p <= i
  {
    if i == 0 then 0 else if s[i - 1] == sep then i else SegStart(s, sep, i - 1)
  }

  /** The segments closed by the separators in `s[..i]`, in order. */
  function Segments(s: string, sep: char, i: nat): seq<string>
    requires i <= |s|
  {
    if i == 0 then []
    else if s[i - 1] == sep then Segments(s, sep, i - 1) + [s[SegStart(s, sep, i - 1)..i - 1]]
    else Segments(s, sep, i - 1)
  }

  /** `s` cut at every `sep`: one segment more than there are separators, empty ones included. */
  function Split(s: string, sep: char): seq<string>
  {
    Segments(s, sep, |s|) + [s[SegStart(s, sep, |s|)..]]
  }

  lemma JoinSnoc(parts: seq<string>, x: string, sep: char)
    requires |parts| > 0
    ensures Join(parts + [x], sep) == Join(parts, sep) + [sep] + x
  {
    assert (parts + [x])[..|parts|] == parts;
  }

  lemma JoinGrowLast(parts: seq<string>, x: string, c: char, sep: char)
    ensures Join(parts + [x + [c]], sep) == Join(parts + [x], sep) + [c]
  {
    if |parts| > 0 {
      JoinSnoc(parts, x + [c], sep);
      JoinSnoc(parts, x, sep);
    }
  }

  lemma {:induction false} JoinSegments(s: string, sep: char, i: nat)
    requires i <= |s|
    ensures Join(Segments(s, sep, i) + [s[SegStart(s, sep, i)..i]], sep) == s[..i]
  {
    if i > 0 {
      JoinSegments(s, sep, i - 1);
      if s[i - 1] == sep {
        JoinSnoc(Segments(s, sep, i), [], sep);
        assert s[..i] == s[..i - 1] + [sep];
      } else {
        JoinSegmentsPlain(s, sep, i);
      }
    }
  }

  lemma JoinSegmentsPlain(s: string, sep: char, i: nat)
    requires 0 < i <= |s| && s[i - 1] != sep
    requires Join(Segments(s, sep, i - 1) + [s[SegStart(s, sep, i - 1)..i - 1]], sep) == s[..i - 1]
    ensures Join(Segments(s, sep, i) + [s[SegStart(s, sep, i)..i]], sep) == s[..i]
  {
    var p, segs := SegStart(s, sep, i - 1), Segments(s, sep, i - 1);
    assert SegStart(s, sep, i) == p && Segments(s, sep, i) == segs;
    assert s[p..i] == s[p..i - 1] + [s[i - 1]];
    JoinGrowLast(segs, s[p..i - 1], s[i - 1], sep);
    assert s[..i] == s[..i - 1] + [s[i - 1]];
  }

  /** Joining the segments with `sep` gives back `s`. */
  lemma JoinSplit(s: string, sep: char)
    ensures Join(Split(s, sep), sep) == s
  {
    JoinSegments(s, sep, |s|);
    assert s[..|s|] == s;
  }

  lemma {:induction false} SegmentsCount(s: string, sep: char, i: nat)
    requires i <= |s|
    ensures |Segments(s, sep, i)| == multiset(s[..i])[sep]
  {
    if i > 0 {
      SegmentsCount(s, sep, i - 1);
      assert s[..i] == s[..i - 1] + [s[i - 1]];
    }
  }

  /** There is one segment more than there are separators. */
  lemma SplitCount(s: string, sep: char)
    ensures |Split(s, sep)| == multiset(s)[sep] + 1
  {
    SegmentsCount(s, sep, |s|);
    assert s[..|s|] == s;
  }

  /** Scanning characters that are not separators closes no segment. */
  lemma {:induction false} SegScan(s: string, sep: char, p: nat, q: nat)
    requires p <= q <= |s| && forall k | p <= k < q :: s[k] != sep
    ensures Segments(s, sep, q) == Segments(s, sep, p)
    ensures SegStart(s, sep, q) == SegStart(s, sep, p)
    decreases q - p
  {
    if p < q {
      SegScan(s, sep, p, q - 1);
    }
  }

  lemma {:induction false} SegmentsGrow(s: string, sep: char, i: nat, j: nat)
    requires i <= j <= |s|
    ensures Segments(s, sep, i) <= Segments(s, sep, j)
    decreases j - i
  {
    if i < j {
      SegmentsGrow(s, sep, i, j - 1);
    }
  }

  /** `s` starts with the separator. */
  predicate LeadingSep(s: string, sep: char) {
    |s| > 0 && s[0] == sep
  }

  /**
   * The texts grabInts hands to `toInt` for the segments `segs` of `s`: the
   * segments themselves, except that with a leading separator the first
   * one is the whole of `s`.
   */
  function Grabbed(s: string, sep: char, segs: seq<string>): (texts: seq<string>)
    ensures |texts| == |segs|
  {
    if segs != [] && LeadingSep(s, sep) then [s] + segs[1..] else segs
  }

  /** The texts grabInts reads, in order. */
  function GrabTexts(s: string, sep: char): (texts: seq<string>)
  {
    Grabbed(s, sep, Split(s, sep))
  }

  /**
   * One `indexOf` from the start of a segment: either no separator is left
   * and the rest of `s` is the last segment, or the segment ends at the
   * separator found and the next one starts just after it.
   */
  lemma SplitStep(s: string, sep: char, start: nat)
    requires start <= |s| && SegStart(s, sep, start) == start
    ensures |Segments(s, sep, start)| < |Split(s, sep)|
    ensures var end := IndexOf(s, sep, start);
      && (end == -1 ==> Segments(s, sep, start) + [s[start..]] == Split(s, sep))
      && (end != -1 ==> SegStart(s, sep, end + 1) == end + 1)
      && (end != -1 ==> Segments(s, sep, end + 1) == Segments(s, sep, start) + [s[start..end]])
  {
    var end := IndexOf(s, sep, start);
    SegmentsGrow(s, sep, start, |s|);
    if end == -1 {
      SegScan(s, sep, start, |s|);
    } else {
      SegScan(s, sep, start, end);
    }
  }

  /** `start` is where segment number `k` of `s` begins. */
  ghost predicate AtSegment(s: string, sep: char, start: nat, k: nat)
  {
    start <= |s| && SegStart(s, sep, start) == start && |Segments(s, sep, start)| == k
  }

  /**
   * One `indexOf` from the start of segment `k`: it ends at the separator
   * found, where segment `k + 1` begins, or at the end of `s` when no
   * separator is left, and then it is the last one.
   */
  lemma SegmentStep(s: string, sep: char, start: nat, k: nat)
    requires AtSegment(s, sep, start, k)
    ensures k < |Split(s, sep)|
    ensures var end := IndexOf(s, sep, start);
      && Split(s, sep)[k] == (if end == -1 then s[start..] else s[start..end])
      && (end == -1 ==> k + 1 == |Split(s, sep)|)
      && (end != -1 ==> AtSegment(s, sep, end + 1, k + 1))
  {
    SplitStep(s, sep, start);
    var end := IndexOf(s, sep, start);
    if end != -1 {
      SegmentsGrow(s, sep, end + 1, |s|);
      assert Segments(s, sep, end + 1)[k] == s[start..end];
    }
  }

  /**
   * One round of grabInts, from the start of segment `k`: the text its
   * `substring` call takes is text `k` of `GrabTexts`, and the round is the last exactly when
   * `indexOf` finds no separator.
   */
  lemma GrabStep(s: string, sep: char, start: nat, k: nat)
    requires |s| < 0x8000_0000 && AtSegment(s, sep, start, k) && (start == 0 <==> k == 0)
    ensures k < |GrabTexts(s, sep)|
    ensures var end := IndexOf(s, sep, start);
      && GrabTexts(s, sep)[k] == (if end > 0 then Substring(s, start, end) else Substring(s, start, |s|))
      && (end == -1 ==> k + 1 == |GrabTexts(s, sep)|)
      && (end != -1 ==> AtSegment(s, sep, end + 1, k + 1))
  {
    SegmentStep(s, sep, start, k);
    var end := IndexOf(s, sep, start);
    GrabSubstring(s, start, end);
    if k == 0 && LeadingSep(s, sep) {
      assert end == 0;
    }
  }

  /**
   * The leading-separator quirk: with a leading separator the first segment
   * is empty, yet grabInts reads the whole of `s` in its place; for
   * `grabInts("-5-3", dest, "-")` that stores -5 where the segment reads as 0.
   */
  lemma LeadingSepQuirk(s: string, sep: char)
    requires LeadingSep(s, sep)
    ensures Split(s, sep)[0] == "" && GrabTexts(s, sep)[0] == s
    ensures s == "-5-3" && sep == '-' ==> ToInt(GrabTexts(s, sep)[0]) == -5 && ToInt(Split(s, sep)[0]) == 0
  {
    SplitStep(s, sep, 0);
    assert IndexOf(s, sep, 0) == 0;
    SplitStep(s, sep, 1);
    assert Segments(s, sep, 1) == [""];
    SegmentsGrow(s, sep, 1, |s|);
    if s == "-5-3" && sep == '-' {
      assert s[1..] == "5-3" && SkipSpace(s) == s;
      assert ReadDigits("5-3", 0) == 5;
    }
  }

  /** The `substring` calls of grabInts: up to the separator found, or to the end of `s`. */
  lemma GrabSubstring(s: string, start: nat, end: int)
    requires |s| < 0x8000_0000 && start <= |s| && (end == -1 || start <= end <= |s|)
    ensures end != -1 ==> Substring(s, start, end) == s[start..end]
    ensures Substring(s, start, |s|) == s[start..]
  {
    assert Substring(s, start, |s|) == s[start..|s|] == s[start..];
  }

  /** One pass of the corrected loop: the text it reads at `start` is segment `k`. */
  lemma IntendedStep(s: string, sep: char, start: nat, k: nat)
    requires |s| < 0x8000_0000 && AtSegment(s, sep, start, k)
    ensures k < |Split(s, sep)|
    ensures var end := IndexOf(s, sep, start);
      && Split(s, sep)[k] == (if end >= 0 then Substring(s, start, end) else Substring(s, start, |s|))
      && (end == -1 ==> k + 1 == |Split(s, sep)|)
      && (end != -1 ==> AtSegment(s, sep, end + 1, k + 1))
  {
    SegmentStep(s, sep, start, k);
    GrabSubstring(s, start, IndexOf(s, sep, start));
  }

  /**
   * grabInts (ClockUtils.cpp) with a one-character separator: stores `toInt`
   * of each text it reads into consecutive cells of `dest`, one per segment
   * of `s`, and touches no other cell.  `dest` must have room for them all.
   */
  method GrabInts(s: string, dest: array<Int32>, sep: char)
    requires |s| < 0x8000_0000 && |Split(s, sep)| <= dest.Length
    modifies dest
    ensures |GrabTexts(s, sep)| == |Split(s, sep)|
    ensures forall j | 0 <= j < |GrabTexts(s, sep)| :: dest[j] == ToInt(GrabTexts(s, sep)[j])
    ensures forall j | |GrabTexts(s, sep)| <= j < dest.Length :: dest[j] == old(dest[j])
  {
    ghost var texts := GrabTexts(s, sep);
    ghost var before := dest[..];
    var k := 0;
    var end := 0;
    var start := 0;
    while end != -1
      invariant 0 <= start <= |s| && k <= |texts|
      invariant end != -1 ==> AtSegment(s, sep, start, k) && (start == 0 <==> k == 0)
      invariant end == -1 ==> k == |texts|
      invariant forall j | 0 <= j < k :: dest[j] == ToInt(texts[j])
      invariant forall j | k <= j < dest.Length :: dest[j] == before[j]
      decreases if end == -1 then 0 else |s| + 2 - start
    {
      GrabStep(s, sep, start, k);
      end := IndexOf(s, sep, start);
      var text := if end > 0 then Substring(s, start, end) else Substring(s, start, |s|);
      assert text == texts[k];
      dest[k] := ToInt(text);
      k := k + 1;
      start := end + 1;
    }
  }

  /**
   * grabInts as evidently intended, testing `end >= 0` instead of
   * `end > 0`: stores `toInt` of each segment of `s`, in order.
   */
  method GrabIntsIntended(s: string, dest: array<Int32>, sep: char)
    requires |s| < 0x8000_0000 && |Split(s, sep)| <= dest.Length
    modifies dest
    ensures forall j | 0 <= j < |Split(s, sep)| :: dest[j] == ToInt(Split(s, sep)[j])
    ensures forall j | |Split(s, sep)| <= j < dest.Length :: dest[j] == old(dest[j])
  {
    ghost var texts := Split(s, sep);
    ghost var before := dest[..];
    var k := 0;
    var end := 0;
    var start := 0;
    while end != -1
      invariant 0 <= start <= |s| && k <= |texts|
      invariant end != -1 ==> AtSegment(s, sep, start, k)
      invariant end == -1 ==> k == |texts|
      invariant forall j | 0 <= j < k :: dest[j] == ToInt(texts[j])
      invariant forall j | k <= j < dest.Length :: dest[j] == before[j]
      decreases if end == -1 then 0 else |s| + 2 - start
    {
      IntendedStep(s, sep, start, k);
      end := IndexOf(s, sep, start);
      var text := if end >= 0 then Substring(s, start, end) else Substring(s, start, |s|);
      assert text == texts[k];
      dest[k] := ToInt(text);
      k := k + 1;
      start := end + 1;
    }
  }

  // ---------------------------------------------------------------------------
  // BCD and hex digits
  // ---------------------------------------------------------------------------

  /**
   * hex2bcd: the tens of `x` shifted into the high nibble of an `unsigned
   * char`, or-ed with the units.  The shift is done in `int` and the store
   * into `y` keeps the low eight bits, so from 160 on the tens wrap.
   */
  function Hex2Bcd(x: Byte): (r: Byte)
    ensures r == (16 * (x / 10)) % 0x100 + x % 10
  {
    var y := WrapByte((x / 10) * Pow2(4));
    ShiftedByte(x / 10);
    BitOrShifted((x / 10) % 16, x % 10, 4);
    BitOr(y, x % 10)
  }

  /** Keeping the low eight bits of `a << 4` keeps the low four bits of `a`. */
  lemma ShiftedByte(a: nat)
    ensures Pow2(4) == 16 && WrapByte(a * 16) == a % 16 * 16
  {
    var q, r, n := a / 16, a % 16, a * 16;
    assert n == 0x100 * q + r * 16 && 0 <= r * 16 < 0x100;
    assert n / 0x100 == q;
  }

  /** The value of a packed BCD byte: ten times the high nibble plus the low nibble. */
  function BcdToDec(b: Byte): nat
  {
    10 * (b / 16) + b % 16
  }

  /** A byte made of a high nibble `hi` and a low nibble `lo` splits back into them. */
  lemma NibblesOf(hi: nat, lo: nat)
    requires hi < 16 && lo < 16
    ensures (16 * hi + lo) / 16 == hi && (16 * hi + lo) % 16 == lo
  {
  }

  /**
   * For the numbers below 100 a clock register holds, hex2bcd puts the tens
   * digit in the high nibble and the units digit in the low one, so the
   * byte reads back as `x`.
   */
  lemma Hex2BcdDigits(x: Byte)
    requires x <= 99
    ensures Hex2Bcd(x) == 16 * (x / 10) + x % 10
    ensures Hex2Bcd(x) / 16 == x / 10 && Hex2Bcd(x) % 16 == x % 10
    ensures BcdToDec(Hex2Bcd(x)) == x
  {
    var tens := x / 10;
    assert tens <= 9;
    assert (16 * tens) % 0x100 == 16 * tens;
    NibblesOf(tens, x % 10);
  }

  /** No two numbers below 100 share a BCD byte. */
  lemma Hex2BcdInjective(x: Byte, y: Byte)
    requires x <= 99 && y <= 99 && Hex2Bcd(x) == Hex2Bcd(y)
    ensures x == y
  {
    Hex2BcdDigits(x);
    Hex2BcdDigits(y);
  }

  /** From 160 on the tens no longer fit: hex2bcd(160) is 0, like hex2bcd(0). */
  lemma Hex2BcdWraps()
    ensures Hex2Bcd(160) == Hex2Bcd(0) == 0
  {
    assert 160 / 10 == 16 && 16 * 16 == 0x100;
  }

  predicate IsHexChar(c: char) {
    '0' <= c <= '9' || 'a' <= c <= 'f' || 'A' <= c <= 'F'
  }

  /** The lower- and upper-case hex digits for the values 0 to 15. */
  function LowerHexDigit(v: nat): char
    requires v < 16
  {
    "0123456789abcdef"[v]
  }

  function UpperHexDigit(v: nat): char
    requires v < 16
  {
    "0123456789ABCDEF"[v]
  }

  /**
   * nibble: the value of a hex digit in either case; every other character
   * yields 0, so the result always fits in four bits.
   */
  function Nibble(c: char): (r: Byte)
    ensures r < 16
    ensures !IsHexChar(c) ==> r == 0
  {
    if '0' <= c <= '9' then c as int - '0' as int
    else if 'a' <= c <= 'f' then c as int - 'a' as int + 10
    else if 'A' <= c <= 'F' then c as int - 'A' as int + 10
    else 0
  }

  /** nibble reads back the digit of every value from 0 to 15, in either case. */
  lemma NibbleOfHexDigit(v: nat)
    requires v < 16
    ensures Nibble(LowerHexDigit(v)) == v && Nibble(UpperHexDigit(v)) == v
  {
  }

  /** Every hex character is the digit, in one case or the other, of its nibble. */
  lemma HexDigitOfNibble(c: char)
    requires IsHexChar(c)
    ensures c == LowerHexDigit(Nibble(c)) || c == UpperHexDigit(Nibble(c))
  {
  }

  /**
   * hexCharacterStringToBytes: the nibble of each character of `hexString`
   * before its NUL goes into the same cell of `byteArray`; no other cell
   * changes.  Both indices are `byte`s, so the string must be shorter than
   * 256 characters or the loop never ends.
   */
  method HexCharacterStringToBytes(byteArray: array<Byte>, hexString: string)
    requires Strlen(hexString) < 0x100 && Strlen(hexString) <= byteArray.Length
    modifies byteArray
    ensures forall i | 0 <= i < Strlen(hexString) :: byteArray[i] == Nibble(hexString[i])
    ensures forall i | Strlen(hexString) <= i < byteArray.Length :: byteArray[i] == old(byteArray[i])
  {
    ghost var before := byteArray[..];
    var byteIndex: Byte := 0;
    var charIndex: Byte := 0;
    while charIndex < Strlen(hexString)
      invariant charIndex <= Strlen(hexString) && byteIndex == charIndex
      invariant forall i | 0 <= i < charIndex :: byteArray[i] == Nibble(hexString[i])
      invariant forall i | charIndex <= i < byteArray.Length :: byteArray[i] == before[i]
    {
      byteArray[byteIndex] := Nibble(hexString[charIndex]);
      byteIndex := byteIndex + 1;
      charIndex := charIndex + 1;
    }
  }
}
