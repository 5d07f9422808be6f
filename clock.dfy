/** The time formatters repeated across the application. Three variants exist:
    - `M:SS` with unbounded minutes (`formatTime` in the transcript panel and
      the chapter list, `formatTimestamp` in the analysis and chat routes);
    - `H:MM:SS` or `M:SS` on seconds that may carry a fraction
      (`formatTimestamp` in src/lib/transcript-utils.ts and src/lib/transcript.ts);
    - `H:MM:SS` or `M:SS` on whole seconds, without flooring the seconds field
      (`formatDuration` in the video selector and the dashboard). */
module Clock {
  import opened JsString
  import opened JsNumber
  import opened Wrappers

  /** `Math.floor(seconds / 60)`. */
  function Minutes(seconds: real): int {
    (seconds / 60.0).Floor
  }

  /** `Math.floor(seconds % 60)`. */
  function SecondsPart(seconds: real): int {
    Rem(seconds, 60.0).Floor
  }

  /** `${mins}:${secs.toString().padStart(2, "0")}`. */
  function FormatMinSec(seconds: real): string {
    IntToString(Minutes(seconds)) + ":" + PadStart2(IntToString(SecondsPart(seconds)))
  }

  lemma FloorMinusInt(r: real, k: int)
    ensures (r - k as real).Floor == r.Floor - k
  {
  }

  /** For a non-negative time the two fields of `M:SS` are a whole number of
      minutes and a second count below 60 that add up to the floored time. */
  lemma MinSecFields(seconds: real)
    requires seconds >= 0.0
    ensures Minutes(seconds) >= 0
    ensures 0 <= SecondsPart(seconds) < 60
    ensures Minutes(seconds) * 60 + SecondsPart(seconds) == seconds.Floor
  {
    var m := Minutes(seconds);
    RemOfNonNegative(seconds, 60.0);
    assert Rem(seconds, 60.0) == seconds - (60 * m) as real;
    FloorMinusInt(seconds, 60 * m);
  }

  /** `Math.floor(seconds / 3600)`. */
  function Hours(seconds: real): int {
    (seconds / 3600.0).Floor
  }

  /** `Math.floor((seconds % 3600) / 60)`. */
  function MinutesOfHour(seconds: real): int {
    (Rem(seconds, 3600.0) / 60.0).Floor
  }

  /** `formatTimestamp` of src/lib/transcript-utils.ts and src/lib/transcript.ts. */
  function FormatClock(seconds: real): string {
    var hours := Hours(seconds);
    var secs := PadStart2(IntToString(SecondsPart(seconds)));
    if hours > 0 then IntToString(hours) + ":" + PadStart2(IntToString(MinutesOfHour(seconds))) + ":" + secs
    else IntToString(MinutesOfHour(seconds)) + ":" + secs
  }

  /** For a non-negative time the three fields of `H:MM:SS` recombine to the floored time. */
  lemma ClockFields(seconds: real)
    requires seconds >= 0.0
    ensures Hours(seconds) >= 0
    ensures 0 <= MinutesOfHour(seconds) < 60 && 0 <= SecondsPart(seconds) < 60
    ensures Hours(seconds) * 3600 + MinutesOfHour(seconds) * 60 + SecondsPart(seconds) == seconds.Floor
  {
    var h := Hours(seconds);
    var rest := Rem(seconds, 3600.0);
    RemOfNonNegative(seconds, 3600.0);
    assert rest == seconds - (3600 * h) as real;
    var m := MinutesOfHour(seconds);
    assert seconds / 60.0 == (60 * h) as real + rest / 60.0;
    FloorMinusInt(seconds / 60.0, 60 * h);
    assert Minutes(seconds) == 60 * h + m;
    MinSecFields(seconds);
  }

  /** Below one hour the H:MM:SS formatter writes the same label as the M:SS one. */
  lemma ClockBelowHour(seconds: real)
    requires 0.0 <= seconds < 3600.0
    ensures FormatClock(seconds) == FormatMinSec(seconds)
  {
    assert Hours(seconds) == 0;
    RemOfNonNegative(seconds, 3600.0);
    assert Rem(seconds, 3600.0) == seconds;
  }

  /** `formatDuration` of the video selector and the dashboard, on whole seconds. */
  function FormatDuration(seconds: nat): string {
    var hours := seconds / 3600;
    var minutes := (seconds % 3600) / 60;
    var secs := PadStart2(IntToString(seconds % 60));
    if hours > 0 then IntToString(hours) + ":" + PadStart2(IntToString(minutes)) + ":" + secs
    else IntToString(minutes) + ":" + secs
  }

  /** Dividing whole numbers as reals and flooring is integer division; `%` agrees too. */
  lemma WholeDivision(n: nat, d: nat)
    requires d > 0
    ensures (n as real / d as real).Floor == n / d
    ensures Rem(n as real, d as real) == (n % d) as real
  {
    var q := n / d;
    var m := n % d;
    assert n == q * d + m;
    assert n as real == q as real * d as real + m as real;
    assert n as real / d as real == q as real + m as real / d as real;
    assert 0.0 <= m as real / d as real < 1.0;
    RemOfNonNegative(n as real, d as real);
  }

  /** On whole seconds the duration formatter and the timestamp formatter agree. */
  lemma DurationIsClock(seconds: nat)
    ensures FormatDuration(seconds) == FormatClock(seconds as real)
  {
    var s := seconds as real;
    WholeDivision(seconds, 3600);
    WholeDivision(seconds, 60);
    WholeDivision(seconds % 3600, 60);
    assert Hours(s) == seconds / 3600;
    assert MinutesOfHour(s) == (seconds % 3600) / 60;
    assert SecondsPart(s) == seconds % 60;
  }

  /** Reads a `M:SS` or `H:MM:SS` label back into seconds: two or three digit
      runs separated by `:`, nothing else. */
  function ReadClock(text: string): Option<nat> {
    var i := DigitEnd(text, 0);
    if i == 0 || i == |text| || text[i] != ':' then None
    else ReadAfterFirst(text, i)
  }

  /** The rest of the label after a first field ending at `i`. */
  function ReadAfterFirst(text: string, i: nat): Option<nat>
    requires i < |text| && AllDigits(text[..i])
  {
    var j := DigitEnd(text, i + 1);
    if j == i + 1 then None
    else if j == |text| then Some(MinSecValue(DigitsValue(text[..i]), DigitsValue(text[i + 1..j])))
    else if text[j] != ':' then None
    else ReadLast(text, i, j)
  }

  /** The third field of a `H:MM:SS` label, after fields ending at `i` and `j`. */
  function ReadLast(text: string, i: nat, j: nat): Option<nat>
    requires i < j < |text| && AllDigits(text[..i]) && AllDigits(text[i + 1..j])
  {
    var k := DigitEnd(text, j + 1);
    if k == j + 1 || k != |text| then None
    else Some(ClockValue(DigitsValue(text[..i]), DigitsValue(text[i + 1..j]), DigitsValue(text[j + 1..k])))
  }

  /** The seconds a `M:SS` label's fields count. */
  function MinSecValue(minutes: nat, seconds: nat): nat {
    minutes * 60 + seconds
  }

  /** The seconds a `H:MM:SS` label's fields count. */
  function ClockValue(hours: nat, minutes: nat, seconds: nat): nat {
    hours * 3600 + minutes * 60 + seconds
  }

  /** A field written with `padStart(2, "0")` is a digit run of the same value. */
  lemma PaddedField(n: nat)
    ensures PadStart2(NatToString(n)) != [] && AllDigits(PadStart2(NatToString(n)))
    ensures DigitsValue(PadStart2(NatToString(n))) == n
  {
    NatToStringDigits(n);
    var d := NatToString(n);
    if |d| == 1 {
      var f := "0" + d;
      assert f[..|f| - 1] == "0" && f[|f| - 1] == d[0];
      assert d[..0] == [];
    }
  }

  /** A digit run that sits at `i` and ends at `j`, before a `:` or the end of the text. */
  lemma FieldAt(text: string, i: nat, j: nat, f: string)
    requires i <= j <= |text| && text[i..j] == f && AllDigits(f)
    requires j == |text| || text[j] == ':'
    ensures DigitEnd(text, i) == j
  {
    DigitEndAt(text, i, j);
  }

  /** Two digit runs joined by `:` read as minutes and seconds. */
  lemma ReadsTwoFields(a: string, c: string)
    requires a != [] && c != [] && AllDigits(a) && AllDigits(c)
    ensures ReadClock(a + ":" + c) == Some(MinSecValue(DigitsValue(a), DigitsValue(c)))
  {
    var text := a + ":" + c;
    var i := |a|;
    assert text[..i] == a && text[i] == ':' && text[i + 1..] == c;
    FieldAt(text, 0, i, a);
    FieldAt(text, i + 1, |text|, c);
  }

  /** Three digit runs joined by `:` read as hours, minutes and seconds. */
  lemma ReadsThreeFields(a: string, b: string, c: string)
    requires a != [] && b != [] && c != [] && AllDigits(a) && AllDigits(b) && AllDigits(c)
    ensures ReadClock(a + ":" + b + ":" + c) == Some(ClockValue(DigitsValue(a), DigitsValue(b), DigitsValue(c)))
  {
    var text := a + ":" + b + ":" + c;
    var i := |a|;
    var j := i + 1 + |b|;
    assert text[..i] == a && text[i] == ':';
    assert text[i + 1..j] == b && text[j] == ':';
    assert text[j + 1..] == c;
    FieldAt(text, 0, i, a);
    FieldAt(text, i + 1, j, b);
    FieldAt(text, j + 1, |text|, c);
    assert DigitEnd(text, 0) == i && i != 0 && i != |text| && text[i] == ':';
    assert DigitEnd(text, i + 1) == j && j != i + 1 && j != |text| && text[j] == ':';
    assert DigitEnd(text, j + 1) == |text| && |text| != j + 1;
    assert text[j + 1..|text|] == c;
    assert ReadClock(text) == ReadAfterFirst(text, i) == ReadLast(text, i, j);
  }

  /** The three fields of `formatDuration` recombine to the input. */
  lemma DurationFields(seconds: nat)
    ensures ClockValue(seconds / 3600, (seconds % 3600) / 60, seconds % 60) == seconds
    ensures seconds / 3600 == 0 ==> MinSecValue((seconds % 3600) / 60, seconds % 60) == seconds
  {
    var m := (seconds % 3600) / 60;
    assert seconds % 3600 == m * 60 + seconds % 60;
  }

  /** The duration label reads back as the duration it was made from. */
  lemma DurationLabelRoundTrip(seconds: nat)
    ensures ReadClock(FormatDuration(seconds)) == Some(seconds)
  {
    var h := seconds / 3600;
    var m := (seconds % 3600) / 60;
    var sec := seconds % 60;
    DurationFields(seconds);
    var ss := PadStart2(NatToString(sec));
    PaddedField(sec);
    if h > 0 {
      var hh := NatToString(h);
      var mm := PadStart2(NatToString(m));
      NatToStringDigits(h);
      PaddedField(m);
      assert FormatDuration(seconds) == hh + ":" + mm + ":" + ss;
      ReadsThreeFields(hh, mm, ss);
    } else {
      var mm := NatToString(m);
      NatToStringDigits(m);
      assert FormatDuration(seconds) == mm + ":" + ss;
      ReadsTwoFields(mm, ss);
    }
  }
}
