/**
 * The formatter `date(format, timestamp)`: how it reads its two arguments, the
 * components it renders from the broken-down date, and the fixed chain of
 * twenty `replace` calls that substitutes them into the pattern.
 *
 * The host's `Date` is not modelled: an instant is turned into its fields and
 * its two whole renderings by a function `host` the caller supplies.
 */
module DateFormat {
  import opened Text
  import opened WordRegex
  import opened ReplaceChain

  /**
   * What the host's `Date` reports for one instant: `getFullYear`, `getMonth`
   * (0 for January), `getDate`, `getHours`, `getMinutes`, `getSeconds`,
   * `getMilliseconds` and `getDay` (0 for Sunday).
   */
  datatype Fields = Fields(year: int, month: nat, day: nat, hour: nat, minute: nat,
                           second: nat, millisecond: nat, weekday: nat)
  {
    /** The ranges the fields of a valid date lie in. */
    predicate Valid() {
      && month < 12 && 1 <= day <= 31 && hour < 24 && minute < 60 && second < 60
      && millisecond < 1000 && weekday < 7
    }
  }

  /** One instant as the formatter sees it: its fields, `toUTCString()` and `toISOString()`. */
  datatype Moment = Moment(fields: Fields, utc: string, iso: string)

  const DefaultFormat: string := "Y-m-d H:i:s"

  // ---------------------------------------------------------------------
  // The tables, indexed by month (0..11) and by weekday (0..6).
  // ---------------------------------------------------------------------

  const MonthNames: seq<string> := ["January", "February", "March", "April", "May", "June", "July",
                                    "August", "September", "October", "November", "December"]
  const MonthAbbrevs: seq<string> := ["Jan.", "Feb.", "Mar.", "Apr.", "May", "June", "July",
                                      "Aug.", "Sep.", "Oct.", "Nov.", "Dec."]
  const MonthDigits: seq<string> := ["01", "02", "03", "04", "05", "06", "07", "08", "09", "10", "11", "12"]
  const MonthNumbers: seq<nat> := [1, 2, 3, 4, 5, 6, 7, 8, 9, 10, 11, 12]
  const WeekdayNames: seq<string> := ["Sunday", "Monday", "Tuesday", "Wednesday", "Thursday", "Friday", "Saturday"]
  const WeekdayAbbrevs: seq<string> := ["Sun.", "Mon.", "Tues.", "Wed.", "Thur.", "Fri.", "Sat."]

  /** The numeric month tables give the month's number, 1 for January: `m` padded, `n` not. */
  lemma MonthTables()
    ensures |MonthNames| == |MonthAbbrevs| == |MonthDigits| == |MonthNumbers| == 12
    ensures |WeekdayNames| == |WeekdayAbbrevs| == 7
    ensures forall k :: 0 <= k < 12 ==> MonthNumbers[k] == k + 1
    ensures forall k :: 0 <= k < 12 ==> MonthDigits[k] == Pad2(k + 1)
  {
    forall k | 0 <= k < 12 ensures MonthDigits[k] == Pad2(k + 1) {
      if k < 9 {
        assert Pad2(k + 1) == "0" + [DigitChar(k + 1)];
      } else {
        assert Decimal(k + 1) == Decimal(1) + [DigitChar(k + 1 - 10)];
      }
    }
  }

  // ---------------------------------------------------------------------
  // The components.
  // ---------------------------------------------------------------------

  /** The last two digits of a four-digit number, as `Pad2` writes them. */
  lemma LastTwoDigits(y: nat)
    requires 1000 <= y < 10000
    ensures Decimal(y)[2..] == Pad2(y % 100)
  {
    var hi, lo := Decimal(y / 100), y % 100;
    HundredsSplit(y);
    DecimalStep(y);
    DecimalStep(y / 10);
    assert |hi| == 2;
    assert Decimal(y) == hi + [DigitChar(lo / 10), DigitChar(lo % 10)];
    if lo >= 10 {
      DecimalStep(lo);
    }
  }

  /** The last digit of a three-digit number. */
  lemma LastOfThreeDigits(y: nat)
    requires 100 <= y < 1000
    ensures Decimal(y)[2..] == [DigitChar(y % 10)]
  {
    DecimalStep(y);
    assert |Decimal(y / 10)| == 2;
  }

  lemma DecimalStep(n: nat)
    requires n >= 10
    ensures Decimal(n) == Decimal(n / 10) + [DigitChar(n % 10)]
  {
  }

  lemma HundredsSplit(y: nat)
    requires y >= 1000
    ensures y / 10 >= 10 && y / 10 / 10 == y / 100
    ensures y % 100 / 10 == y / 10 % 10 && y % 100 % 10 == y % 10
  {
  }

  /** `year[1]`: the year's decimal string without its first two characters. */
  function ShortYear(year: int): (r: string)
    ensures 1000 <= year < 10000 ==> r == Pad2(year % 100)
    ensures 0 <= year < 100 ==> r == ""
    ensures AllDigits(r)
    ensures year >= 0 ==> |r| == if |Decimal(year)| <= 2 then 0 else |Decimal(year)| - 2
    ensures year >= 0 ==> forall k :: 0 <= k < |r| ==> r[k] == Decimal(year)[k + 2]
    ensures 100 <= year < 1000 ==> |r| == 1 && DigitsValue(r) == year % 10
    ensures 10000 <= year ==> |r| >= 3
  {
    var r := DropTwo(IntToString(year));
    assert year >= 0 ==> r == DropTwo(Decimal(year));
    assert 100 <= year < 1000 ==> |r| == 1 && DigitsValue(r) == year % 10 by {
      if 100 <= year < 1000 {
        LastOfThreeDigits(year);
        assert r == [DigitChar(year % 10)];
        assert r[..0] == [];
      }
    }
    assert AllDigits(r) by {
      var t := IntToString(year);
      if year < 0 {
        forall k | 0 <= k < |r| ensures IsDigit(r[k]) {
          assert r[k] == t[1..][k + 1];
        }
      }
    }
    assert 1000 <= year < 10000 ==> r == Pad2(year % 100) by {
      if 1000 <= year < 10000 { LastTwoDigits(year); }
    }
    r
  }

  /** The `g` value: the hour less 12 after noon, the hour itself up to noon. */
  function Hour12(hour: nat): (r: nat)
    requires hour < 24
    ensures r <= 12
    ensures r % 12 == hour % 12
    ensures r == 0 <==> hour == 0
  {
    if hour > 12 then hour - 12 else hour
  }

  /**
   * The `h` value: `hours` is the two-digit string below 10 and the number
   * from 10 on; compared with 12 the string counts as its number, so the
   * hours up to noon keep their two-digit form and the later ones lose 12 and
   * are written without padding.
   */
  function Hour12Text(hour: nat): (r: string)
    requires hour < 24
    ensures AllDigits(r) && DigitsValue(r) == Hour12(hour)
    ensures |r| == 2 <==> hour <= 12 || hour >= 22
    ensures |r| == 1 <==> 13 <= hour <= 21
  {
    if hour > 12 then Decimal(hour - 12) else Pad2(hour)
  }

  /** `apm`: upper- and lower-case marker; morning takes in noon itself. */
  function Meridiem(hour: nat): (r: (string, string))
    requires hour < 24
    ensures r.0 == (if hour <= 12 then "AM" else "PM")
    ensures r.1 == LowerString(r.0)
  {
    assert LowerString("AM") == [Lower('A')] + LowerString("M");
    assert LowerString("PM") == [Lower('P')] + LowerString("M");
    assert LowerString("M") == [Lower('M')] + LowerString("");
    if hour <= 12 then ("AM", "am") else ("PM", "pm")
  }

  // ---------------------------------------------------------------------
  // The rules.
  // ---------------------------------------------------------------------

  /** `/\bgmt|utc\b/i`: `gmt` at the start of a word, or `utc` at the end of one, in any case. */
  const GmtRe: Regex := Regex([Branch(true, "gmt", false), Branch(false, "utc", true)], true, false)

  /** The literals of the nineteen whole-word rules after `gmt|utc`, in chain order. */
  const TokenLits: seq<string> := ["iso", "Y", "y", "Month", "M", "m", "n", "d", "G", "g", "H", "h", "i",
                                  "ms", "s", "Week", "W", "A", "a"]

  /** How many rules the chain applies. */
  const RuleCount: nat := 20

  /**
   * The regex of rule `k`, counting from 0 in chain order: `gmt|utc`, then
   * `\blit\b` for the literals of `TokenLits`, of which only `iso` ignores
   * case and only `Week` carries the `g` flag.
   */
  function Rule(k: nat): (re: Regex)
    requires k < RuleCount
    ensures k > 0 ==> re == WordRe(TokenLits[k - 1], k == 1, k == 16)
  {
    if k == 0 then GmtRe else WordRe(TokenLits[k - 1], k == 1, k == 16)
  }

  /** The literal of each whole-word rule, by position. */
  lemma TokenLitsSpelled()
    ensures TokenLits[0] == "iso" && TokenLits[1] == "Y" && TokenLits[2] == "y" && TokenLits[3] == "Month"
    ensures TokenLits[4] == "M" && TokenLits[5] == "m" && TokenLits[6] == "n" && TokenLits[7] == "d"
    ensures TokenLits[8] == "G" && TokenLits[9] == "g" && TokenLits[10] == "H" && TokenLits[11] == "h"
    ensures TokenLits[12] == "i" && TokenLits[13] == "ms" && TokenLits[14] == "s" && TokenLits[15] == "Week"
    ensures TokenLits[16] == "W" && TokenLits[17] == "A" && TokenLits[18] == "a"
  {
  }

  /** The literals are words that start with a letter. */
  lemma TokenLitsShape()
    ensures |TokenLits| == RuleCount - 1
    ensures forall i :: 0 <= i < |TokenLits| ==> |TokenLits[i]| > 0 && AllWord(TokenLits[i]) && IsLetter(TokenLits[i][0])
  {
  }

  /**
   * The shape of the rules: every literal starts with a letter, all but the
   * first are whole words, only `gmt|utc` and `iso` ignore case and only
   * `Week` is global.
   */
  lemma RulesShape(k: nat)
    requires k < RuleCount
    ensures WellFormed(Rule(k))
    ensures k > 0 ==> IsWholeWord(Rule(k))
    ensures forall j :: 0 <= j < |Rule(k).alts| ==> IsLetter(Rule(k).alts[j].lit[0])
    ensures Rule(k).ignoreCase <==> k <= 1
    ensures Rule(k).global <==> k == 16
  {
    TokenLitsShape();
  }

  /** The text rule `k` puts in. */
  function Value(m: Moment, k: nat): string
    requires m.fields.Valid() && k < RuleCount
  {
    var f := m.fields;
    match k
    case 0 => m.utc
    case 1 => m.iso
    case 2 => IntToString(f.year)
    case 3 => ShortYear(f.year)
    case 4 => MonthNames[f.month]
    case 5 => MonthAbbrevs[f.month]
    case 6 => MonthDigits[f.month]
    case 7 => Decimal(MonthNumbers[f.month])
    case 8 => Pad2(f.day)
    case 9 => Decimal(f.hour)
    case 10 => Decimal(Hour12(f.hour))
    case 11 => Pad2(f.hour)
    case 12 => Hour12Text(f.hour)
    case 13 => Pad2(f.minute)
    case 14 => Pad3(f.millisecond)
    case 15 => Pad2(f.second)
    case 16 => WeekdayNames[f.weekday]
    case 17 => WeekdayAbbrevs[f.weekday]
    case 18 => Meridiem(f.hour).0
    case _ => Meridiem(f.hour).1
  }

  /** The chained `.replace` calls, in the order the source makes them. */
  function Steps(m: Moment): (steps: seq<Step>)
    requires m.fields.Valid()
    ensures |steps| == RuleCount && WellFormedSteps(steps)
    ensures forall k :: 0 <= k < RuleCount ==> steps[k] == Step(Rule(k), Value(m, k))
  {
    var steps := seq(RuleCount, k requires 0 <= k < RuleCount => Step(Rule(k), Value(m, k)));
    assert WellFormedSteps(steps) by {
      forall k | 0 <= k < RuleCount {
        RulesShape(k);
      }
    }
    steps
  }

  /** The pattern with every rule applied: it comes back as it is when no rule matches in it. */
  function Format(pattern: string, m: Moment): (r: string)
    requires m.fields.Valid()
    ensures (forall k :: 0 <= k < RuleCount ==> NoMatchIn(pattern, Rule(k))) ==> r == pattern
  {
    Apply(pattern, Steps(m), 0)
  }

  // ---------------------------------------------------------------------
  // The arguments.
  // ---------------------------------------------------------------------

  /** The JavaScript values `date` may be given, as far as it looks at them. */
  datatype Arg = Undefined | Null | Number(n: int) | Str(s: string)

  /** JavaScript truthiness: `undefined`, `null`, `0` and `""` are false. */
  predicate Truthy(a: Arg) {
    match a
    case Undefined => false
    case Null => false
    case Number(n) => n != 0
    case Str(s) => s != ""
  }

  /** A number in the first place is the timestamp, and the format becomes `null`. */
  function Normalize(format: Arg, timestamp: Arg): (r: (Arg, Arg))
    ensures !r.0.Number?
    ensures format.Number? ==> r == (Null, format)
    ensures !format.Number? ==> r == (format, timestamp)
  {
    if format.Number? then (Null, format) else (format, timestamp)
  }

  /** `format || 'Y-m-d H:i:s'`. */
  function PatternOf(format: Arg): (p: string)
    requires !format.Number?
    ensures p != ""
    ensures Truthy(format) ==> p == format.s
    ensures !Truthy(format) ==> p == DefaultFormat
  {
    if Truthy(format) then format.s else DefaultFormat
  }

  /** `if (timestamp) _date.setTime(timestamp)`: a falsy timestamp leaves the current time. */
  function InstantOf(timestamp: Arg, now: int): (t: int)
    requires !timestamp.Str?
    ensures Truthy(timestamp) ==> t == timestamp.n
    ensures !Truthy(timestamp) ==> t == now
  {
    if Truthy(timestamp) then timestamp.n else now
  }

  /**
   * `date(format, timestamp)` called at time `now`, with `host` turning an
   * instant into what `Date` reports about it.
   */
  function Date(format: Arg, timestamp: Arg, now: int, host: int -> Moment): (r: string)
    requires format.Number? || !timestamp.Str?
    requires host(InstantOf(Normalize(format, timestamp).1, now)).fields.Valid()
    ensures format.Number? ==> r == Format(DefaultFormat, host(if format.n == 0 then now else format.n))
    ensures !format.Number? && !Truthy(format) ==> r == Format(DefaultFormat, host(InstantOf(timestamp, now)))
    ensures format.Str? && format.s != "" ==> r == Format(format.s, host(InstantOf(timestamp, now)))
  {
    var (fmt, ts) := Normalize(format, timestamp);
    Format(PatternOf(fmt), host(InstantOf(ts, now)))
  }
}
