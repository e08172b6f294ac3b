/**
 * src/lib/utils.ts: `formatDate`, which prints a moment as `yyyy/MM/dd HH:mm`.
 * The moment is given by the calendar fields `Date` would report for it.
 */
module Utils {
  import opened Text

  /** `getFullYear()`, `getMonth()` (from 0), `getDate()`, `getHours()`, `getMinutes()`. */
  datatype DateParts = DateParts(year: int, monthIndex: nat, day: nat, hours: nat, minutes: nat)

  /** `s.padStart(width, fill)` for a one-character fill. */
  function PadStart(s: string, width: nat, fill: char): (r: string)
    ensures |r| == if |s| >= width then |s| else width
    ensures r[|r| - |s|..] == s
    ensures forall i :: 0 <= i < |r| - |s| ==> r[i] == fill
  {
    if |s| >= width then s else seq(width - |s|, _ => fill) + s
  }

  /** `String(n).padStart(2, '0')`. */
  function Pad2(n: nat): string {
    PadStart(NatToString(n), 2, '0')
  }

  /** Below 100 the padded number is two digits that read back as the number. */
  lemma Pad2RoundTrip(n: nat)
    requires n < 100
    ensures |Pad2(n)| == 2 && AllDigits(Pad2(n)) && ParseDigits(Pad2(n)) == n
  {
    var s := NatToString(n);
    var p := Pad2(n);
    NatToStringLength(n);
    ParseNatToString(n);
    if n < 10 {
      assert p == ['0'] + s;
      assert p[..1] == ['0'];
      assert ['0'][..0] == [];
    }
  }

  /** `` `${year}/${month}/${day} ${hours}:${minutes}` ``, the month counted from 1. */
  function FormatDate(d: DateParts): string {
    IntToString(d.year) + "/" + Pad2(d.monthIndex + 1) + "/" + Pad2(d.day) + " "
      + Pad2(d.hours) + ":" + Pad2(d.minutes)
  }

  /** The fields `Date` reports for a four-digit year. */
  predicate InRange(d: DateParts) {
    1000 <= d.year <= 9999 && d.monthIndex < 99 && d.day < 100 && d.hours < 100 && d.minutes < 100
  }

  /** Where the pieces of the `yyyy/MM/dd HH:mm` template land. */
  lemma Layout(y: string, mo: string, da: string, ho: string, mi: string)
    requires |y| == 4 && |mo| == 2 && |da| == 2 && |ho| == 2 && |mi| == 2
    ensures var r := y + "/" + mo + "/" + da + " " + ho + ":" + mi;
      && |r| == 16 && r[4] == '/' && r[7] == '/' && r[10] == ' ' && r[13] == ':'
      && r[..4] == y && r[5..7] == mo && r[8..10] == da && r[11..13] == ho && r[14..16] == mi
  {
    var r := y + "/" + mo + "/" + da + " " + ho + ":" + mi;
    assert r[..4] == y;
    assert r[5..7] == mo;
    assert r[8..10] == da;
    assert r[11..13] == ho;
    assert r[14..16] == mi;
  }

  /** For a four-digit year the text is 16 characters: the year, then the month
      (index plus one), day, hours and minutes as two digits each, with `/`,
      `/`, space and `:` between them. */
  lemma FormatDateLayout(d: DateParts)
    requires InRange(d)
    ensures |FormatDate(d)| == 16
    ensures FormatDate(d)[4] == '/' && FormatDate(d)[7] == '/'
    ensures FormatDate(d)[10] == ' ' && FormatDate(d)[13] == ':'
    ensures AllDigits(FormatDate(d)[..4]) && ParseDigits(FormatDate(d)[..4]) == d.year
    ensures AllDigits(FormatDate(d)[5..7]) && ParseDigits(FormatDate(d)[5..7]) == d.monthIndex + 1
    ensures AllDigits(FormatDate(d)[8..10]) && ParseDigits(FormatDate(d)[8..10]) == d.day
    ensures AllDigits(FormatDate(d)[11..13]) && ParseDigits(FormatDate(d)[11..13]) == d.hours
    ensures AllDigits(FormatDate(d)[14..16]) && ParseDigits(FormatDate(d)[14..16]) == d.minutes
  {
    NatToStringLength(d.year);
    ParseNatToString(d.year);
    Pad2RoundTrip(d.monthIndex + 1);
    Pad2RoundTrip(d.day);
    Pad2RoundTrip(d.hours);
    Pad2RoundTrip(d.minutes);
    Layout(IntToString(d.year), Pad2(d.monthIndex + 1), Pad2(d.day), Pad2(d.hours), Pad2(d.minutes));
  }

  /** Different moments (in range) print differently. */
  lemma FormatDateInjective(a: DateParts, b: DateParts)
    requires InRange(a) && InRange(b)
    requires FormatDate(a) == FormatDate(b)
    ensures a == b
  {
    FormatDateLayout(a);
    FormatDateLayout(b);
  }
}
