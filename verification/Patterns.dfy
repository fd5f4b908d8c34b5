/** The text patterns that emitters rely on and validators check, and the library calls
    behind identifiers. */
module Patterns {
  import opened Models

  predicate IsDigit(c: char) { '0' <= c <= '9' }

  predicate IsIdChar(c: char) {
    'A' <= c <= 'Z' || 'a' <= c <= 'z' || IsDigit(c) || c == '.' || c == '-'
  }

  /** `^[A-Za-z0-9.\-]+$` */
  predicate IsSpdxId(s: string) {
    s != [] && forall i | 0 <= i < |s| :: IsIdChar(s[i])
  }

  const PURL_TYPES: set<string> := {"pypi", "npm", "generic", "github", "golang", "maven", "nuget", "docker"}

  predicate NoSpaces(s: string) {
    forall i | 0 <= i < |s| :: !IsSpace(s[i])
  }

  /** `^pkg:(type)/[^\s]+(@[^\s]+)?(\?[^\s]+)?$`: the optional groups add nothing to the first. */
  predicate IsPurl(s: string) {
    exists t :: t in PURL_TYPES && IsPurlOf(t, s)
  }

  predicate IsPurlOf(kind: string, s: string) {
    var prefix := "pkg:" + kind + "/";
    prefix < s && NoSpaces(s[|prefix|..])
  }

  /** `s` has the shape of `mask`, in which 'd' stands for a digit. */
  predicate Fits(s: string, mask: string) {
    |s| == |mask| && forall i | 0 <= i < |s| :: if mask[i] == 'd' then IsDigit(s[i]) else s[i] == mask[i]
  }

  predicate IsUtcTimestamp(s: string) { Fits(s, "dddd-dd-ddTdd:dd:ddZ") }

  predicate IsTimestamp(s: string) {
    IsUtcTimestamp(s) || Fits(s, "dddd-dd-ddTdd:dd:dd+dd:dd") || Fits(s, "dddd-dd-ddTdd:dd:dd-dd:dd")
  }

  predicate Digits(s: string, n: nat) {
    |s| == n && forall i | 0 <= i < |s| :: IsDigit(s[i])
  }

  const CLOCK := "dddd-dd-ddTdd:dd:dd"

  /** The parts of a date and a time of day, with what follows them. */
  datatype Clock = Clock(year: string, month: string, day: string, hour: string, minute: string, second: string,
                         zone: string)
  {
    predicate Numeric() {
      && Digits(year, 4) && Digits(month, 2) && Digits(day, 2)
      && Digits(hour, 2) && Digits(minute, 2) && Digits(second, 2)
    }

    function Printed(): string {
      year + "-" + month + "-" + day + "T" + hour + ":" + minute + ":" + second + zone
    }
  }

  function ReadClock(s: string): Clock
    requires |s| >= 19
  {
    Clock(s[..4], s[5..7], s[8..10], s[11..13], s[14..16], s[17..19], s[19..])
  }

  lemma FitsSplit(s: string, m: string, n: string)
    ensures Fits(s, m + n) <==> |s| >= |m| && Fits(s[..|m|], m) && Fits(s[|m|..], n)
  {
    if |s| >= |m| && Fits(s[..|m|], m) && Fits(s[|m|..], n) {
      forall i | 0 <= i < |s| ensures if (m + n)[i] == 'd' then IsDigit(s[i]) else s[i] == (m + n)[i] {
        if i < |m| { assert s[i] == s[..|m|][i]; } else { assert s[i] == s[|m|..][i - |m|]; }
      }
    }
    if Fits(s, m + n) {
      forall i | 0 <= i < |n| ensures s[|m|..][i] == s[|m| + i] && n[i] == (m + n)[|m| + i] { }
    }
  }

  lemma FittingIsPrinted(s: string)
    requires |s| >= 19 && Fits(s[..19], CLOCK)
    ensures ReadClock(s).Numeric() && s == ReadClock(s).Printed()
  {
    assert forall i | 0 <= i < 19 :: s[..19][i] == s[i];
    var c := ReadClock(s);
    assert c.Numeric();
    assert s[4] == '-' && s[7] == '-' && s[10] == 'T' && s[13] == ':' && s[16] == ':';
    hide Fits, IsDigit;
    assert c.year + "-" + c.month + "-" + c.day == s[..10];
    assert s[..10] + "T" + c.hour + ":" + c.minute + ":" + c.second == s[..19];
    assert s == s[..19] + c.zone;
    assert c.Printed() == (c.year + "-" + c.month + "-" + c.day) + "T" + c.hour + ":" + c.minute + ":" + c.second
                          + c.zone;
  }

  lemma PrintedFits(c: Clock)
    requires c.Numeric()
    ensures |c.Printed()| >= 19 && Fits(c.Printed()[..19], CLOCK) && c.Printed()[19..] == c.zone
  {
    var date, time := c.year + "-" + c.month + "-" + c.day, c.hour + ":" + c.minute + ":" + c.second;
    assert c.Printed() == (date + "T" + time) + c.zone;
    FitsSplit(date + "T" + time, "dddd-dd-ddT", "dd:dd:dd");
    assert "dddd-dd-ddT" + "dd:dd:dd" == CLOCK;
    assert (date + "T" + time)[..11] == date + "T" && (date + "T" + time)[11..] == time;
    assert c.Printed()[..19] == date + "T" + time;
  }

  /** Text that fits a date and a time of day is one that was printed. */
  lemma ClockIff(s: string, mask: string)
    ensures Fits(s, CLOCK + mask) <==> exists c: Clock :: c.Numeric() && Fits(c.zone, mask) && s == c.Printed()
  {
    hide Fits, Clock.Numeric, Clock.Printed;
    FitsSplit(s, CLOCK, mask);
    if |s| >= 19 && Fits(s[..19], CLOCK) { FittingIsPrinted(s); }
    if c: Clock :| c.Numeric() && Fits(c.zone, mask) && s == c.Printed() { PrintedFits(c); }
  }

  /** A creation date is a date and a time of day with a "Z" behind. */
  lemma UtcTimestampIff(s: string)
    ensures IsUtcTimestamp(s) <==> exists c: Clock :: c.Numeric() && c.zone == "Z" && s == c.Printed()
  {
    ClockIff(s, "Z");
    assert CLOCK + "Z" == "dddd-dd-ddTdd:dd:ddZ";
  }

  predicate IsZone(z: string) {
    z == "Z" || (|z| == 6 && z[0] in {'+', '-'} && Digits(z[1..3], 2) && z[3] == ':' && Digits(z[4..], 2))
  }

  /** An RFC 3339 time ends with "Z" or with an offset in hours and minutes. */
  lemma TimestampIff(s: string)
    ensures IsTimestamp(s) <==> exists c: Clock :: c.Numeric() && IsZone(c.zone) && s == c.Printed()
  {
    var plus, minus := "+dd:dd", "-dd:dd";
    assert CLOCK + "Z" == "dddd-dd-ddTdd:dd:ddZ";
    assert CLOCK + plus == "dddd-dd-ddTdd:dd:dd+dd:dd" && CLOCK + minus == "dddd-dd-ddTdd:dd:dd-dd:dd";
    ClockIff(s, "Z");
    ClockIff(s, plus);
    ClockIff(s, minus);
    forall z: string ensures IsZone(z) <==> Fits(z, "Z") || Fits(z, plus) || Fits(z, minus) { ZoneFits(z); }
    hide Fits, IsZone, Clock.Numeric, Clock.Printed;
  }

  lemma ZoneFits(z: string)
    ensures IsZone(z) <==> Fits(z, "Z") || Fits(z, "+dd:dd") || Fits(z, "-dd:dd")
  {
    if |z| == 6 { assert z[1..3] == [z[1], z[2]] && z[4..] == [z[4], z[5]]; }
  }

  predicate IsHexDigit(c: char) {
    IsDigit(c) || 'a' <= c <= 'f' || 'A' <= c <= 'F'
  }

  /** `[0-9a-fA-F]+` */
  predicate IsHex(s: string) {
    s != [] && forall i | 0 <= i < |s| :: IsHexDigit(s[i])
  }

  /** A value that is neither absent nor empty. */
  predicate Truthy(o: Option<string>) { o.Some? && o.value != "" }

  function OrElse(o: Option<string>, fallback: string): string {
    if Truthy(o) then o.value else fallback
  }

  /** The hash functions: `uuid5(namespace, text)`, `sha256(text)` in hex, and whether
      `uuid.UUID` reads a text. */
  datatype Library = Library(
    uuid5: (string, string) -> string,
    sha256: string -> string,
    readsAsUuid: string -> bool)
  {
    ghost predicate Sound() {
      && (forall ns, text :: uuid5(ns, text) != "" && readsAsUuid(uuid5(ns, text)))
      && (forall text :: IsHex(sha256(text)) && |sha256(text)| == 64)
    }

    /** No two texts collide under `uuid5`. */
    ghost predicate Injective(ns: string) {
      forall a, b | a != b :: uuid5(ns, a) != uuid5(ns, b)
    }

    /** No two of the texts collide under `uuid5`. */
    ghost predicate TellsApart(ns: string, texts: set<string>) {
      forall a, b | a in texts && b in texts && a != b :: uuid5(ns, a) != uuid5(ns, b)
    }
  }

  /** Decimal notation. */
  function Decimal(n: nat): (s: string)
    ensures s != [] && forall i | 0 <= i < |s| :: IsDigit(s[i])
  {
    if n < 10 then [DigitChar(n)] else Decimal(n / 10) + [DigitChar(n % 10)]
  }

  function DigitChar(d: nat): (c: char)
    requires d < 10
    ensures IsDigit(c) && c as int == 48 + d
  {
    (48 + d) as char
  }

  lemma {:induction false} DecimalInjective(m: nat, n: nat)
    requires Decimal(m) == Decimal(n)
    ensures m == n
  {
    var s := Decimal(m);
    var last := |s| - 1;
    assert s[last] as int == 48 + m % 10 && s[last] as int == 48 + n % 10;
    if m >= 10 && n >= 10 {
      assert s[..last] == Decimal(m / 10) && s[..last] == Decimal(n / 10);
      DecimalInjective(m / 10, n / 10);
    } else {
      assert m >= 10 ==> |Decimal(m)| > 1;
      assert n >= 10 ==> |Decimal(n)| > 1;
    }
  }
}
