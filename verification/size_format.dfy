/**
 The byte-size formatter `correct_size` of sbor.py. A byte count below 1024 is
 written as a whole number of bytes; otherwise the count is divided by 1024
 repeatedly, walking the binary prefixes K, M, G, T, P, until the quotient
 drops below 1024, and the quotient is written with two decimals followed by
 the prefix and the ending (by default "iB").

 The unit choice is modelled with exact arithmetic: `Size` records which
 branch the formatter takes and the real quotient it renders. How a real
 is printed with two decimals is not modelled; `Text` takes that rendering
 as the parameter `fixed2`.
 */
module SizeFormat {
  import Strings

  /** The divisor between two neighbouring units. */
  const Base: nat := 1024

  /** The prefixes the loop walks, in order; index k stands for 1024^k. */
  const Prefixes: seq<string> := ["", "K", "M", "G", "T", "P"]

  /** The ending every caller in sbor.py uses. */
  const DefaultEnding: string := "iB"

  /** How many prefixes the walk passes before it gives up. */
  const Steps: nat := 6

  /** Index of the largest prefix, P. */
  const Top: nat := 5

  function Pow(k: nat): (p: nat)
    ensures p >= 1
  {
    if k == 0 then 1 else Base * Pow(k - 1)
  }

  lemma {:induction false} PowMonotone(i: nat, k: nat)
    requires i <= k
    ensures Pow(i) <= Pow(k)
    decreases k - i
  {
    if i < k {
      PowMonotone(i + 1, k);
    }
  }

  /** Which branch of the formatter a byte count takes: a whole number of
      bytes, or a real quotient shown with the prefix `Prefixes[unit]`. */
  datatype Size = Bytes(count: nat) | Scaled(value: real, unit: nat)

  /** The scaled branches, from the walk's second step on. At step `i` the
      quotient `bts` is compared with 1024; once all six prefixes are passed
      the last quotient is kept and labelled with the top prefix. */
  function Scan(bts: real, i: nat): (s: Size)
    requires 1 <= i <= Steps
    requires bts >= 1.0
    ensures s.Scaled?
    ensures 1.0 <= s.value
    ensures i <= s.unit + 1 && 1 <= s.unit <= Top
    ensures s.unit < Top ==> s.value < Base as real
    ensures s.value <= bts
    decreases Steps - i
  {
    if i == Steps then Scaled(bts, Top)
    else if bts < Base as real then Scaled(bts, i)
    else Scan(bts / Base as real, i + 1)
  }

  /** The unit `correct_size` picks for `n` bytes and the quotient it
      renders. The explicit zero case of the source coincides with the
      whole-bytes case and is kept in `Text`. */
  function CorrectSize(n: nat): (s: Size)
    ensures s.Bytes? <==> n < Base
    ensures s.Bytes? ==> s.count == n
    ensures s.Scaled? ==> 1 <= s.unit <= Top && 1.0 <= s.value
    ensures s.Scaled? && s.unit < Top ==> s.value < Base as real
  {
    if n < Base then Bytes(n)
    else Scan(n as real / Base as real, 1)
  }

  /** Quotient facts the walk relies on, for a positive divisor `p`. */
  lemma QuotientBounds(x: real, p: real, b: real)
    requires p > 0.0 && b > 0.0
    ensures x >= p ==> x / p >= 1.0
    ensures x < b * p ==> x / p < b
    ensures x >= b * p ==> x / p >= b
    ensures x / p / b == x / (b * p)
  {
    var q := x / p;
    assert q * p == x;
    if q < b {
      assert (b - q) * p > 0.0;
    } else {
      assert (q - b) * p >= 0.0;
    }
    if q < 1.0 {
      assert (1.0 - q) * p > 0.0;
    }
    assert x / (b * p) * (b * p) == x;
    assert (q / b) * (b * p) == q * p;
  }

  lemma PowStep(i: nat)
    ensures Pow(i + 1) as real == Base as real * Pow(i) as real
  {
  }

  /** One step of the walk: a count of at least 1024^(i+1) is not below 1024
      after `i` divisions, and one more division gives n / 1024^(i+1). */
  lemma WalkOn(n: nat, i: nat)
    requires Pow(i + 1) <= n
    ensures n as real / Pow(i) as real >= Base as real
    ensures n as real / Pow(i) as real / Base as real == n as real / Pow(i + 1) as real
  {
    PowStep(i);
    QuotientBounds(n as real, Pow(i) as real, Base as real);
  }

  /** The step where the walk stops: a count below 1024^(k+1) but at least
      1024^k is below 1024 after `k` divisions. */
  lemma StopHere(n: nat, k: nat)
    requires Pow(k) <= n < Pow(k + 1)
    ensures 1.0 <= n as real / Pow(k) as real < Base as real
  {
    PowStep(k);
    QuotientBounds(n as real, Pow(k) as real, Base as real);
  }

  /** Walking on from step `i`, a count between 1024^k and 1024^(k+1)
      stops at step `k` with the quotient n / 1024^k. */
  lemma {:induction false} ScanStopsAt(n: nat, i: nat, k: nat)
    requires 1 <= i <= k <= Top
    requires Pow(k) <= n < Pow(k + 1)
    ensures n as real / Pow(i) as real >= 1.0
    ensures Scan(n as real / Pow(i) as real, i) == Scaled(n as real / Pow(k) as real, k)
    decreases k - i
  {
    if i == k {
      StopHere(n, k);
    } else {
      PowMonotone(i + 1, k);
      WalkOn(n, i);
      ScanStopsAt(n, i + 1, k);
    }
  }

  /** Walking on from step `i`, a count of at least 1024^6 passes every
      prefix and keeps the quotient n / 1024^6. */
  lemma {:induction false} ScanPassesAll(n: nat, i: nat)
    requires 1 <= i <= Steps
    requires Pow(Steps) <= n
    ensures n as real / Pow(i) as real >= 1.0
    ensures Scan(n as real / Pow(i) as real, i) == Scaled(n as real / Pow(Steps) as real, Top)
    decreases Steps - i
  {
    if i == Steps {
      QuotientBounds(n as real, Pow(i) as real, Base as real);
    } else {
      PowMonotone(i + 1, Steps);
      WalkOn(n, i);
      ScanPassesAll(n, i + 1);
    }
  }

  /** Below 1024 the count is shown in whole bytes. */
  lemma CorrectSizeBytes(n: nat)
    requires n < Base
    ensures CorrectSize(n) == Bytes(n)
  {
  }

  /** For 1024^k <= n < 1024^(k+1) with k in 1..5 the unit is the k-th
      prefix and the quotient n / 1024^k lies in [1, 1024). */
  lemma CorrectSizeUnit(n: nat, k: nat)
    requires 1 <= k <= Top
    requires Pow(k) <= n < Pow(k + 1)
    ensures CorrectSize(n) == Scaled(n as real / Pow(k) as real, k)
    ensures 1.0 <= n as real / Pow(k) as real < Base as real
  {
    ScanStopsAt(n, 1, k);
  }

  /** From 1024^6 bytes on, the label stays the top prefix P, but the loop has
      already divided once more: the quotient shown is n / 1024^6, not
      n / 1024^5. So 1024^6 bytes are shown as 1 PiB. */
  lemma CorrectSizeBeyondTop(n: nat)
    requires Pow(Steps) <= n
    ensures CorrectSize(n) == Scaled(n as real / Pow(Steps) as real, Top)
    ensures Prefixes[Top] == "P"
    ensures n as real / Pow(Steps) as real == n as real / Pow(Top) as real / Base as real
  {
    ScanPassesAll(n, 1);
    PowStep(Top);
    QuotientBounds(n as real, Pow(Top) as real, Base as real);
  }

  /** Every count falls under exactly one of the three cases above: whole
      bytes, a prefix k with 1024^k <= n < 1024^(k+1), or beyond the top. */
  lemma {:induction false} MagnitudeExists(n: nat, k: nat)
    requires k <= Top
    requires Pow(k) <= n
    ensures n >= Pow(Steps) || exists j :: k <= j <= Top && Pow(j) <= n < Pow(j + 1)
    decreases Top - k
  {
    if n < Pow(k + 1) {
      assert Pow(k) <= n < Pow(k + 1);
    } else if k < Top {
      MagnitudeExists(n, k + 1);
    }
  }

  /** The text `correct_size` returns for a size. The zero case is written
      literally, as in the source. */
  function Text(s: Size, ending: string, fixed2: real -> string): string
    requires s.Scaled? ==> s.unit < Steps
  {
    match s
    case Bytes(count) =>
      if count == 0 then "0 B" else Strings.NatToDecimal(count) + " B"
    case Scaled(value, unit) =>
      fixed2(value) + " " + Prefixes[unit] + ending
  }

  /** `correct_size(n, ending)`, with the two-decimal rendering of a real
      supplied as `fixed2`. Whole byte counts carry no fraction and no
      ending; larger counts carry one of the prefixes and the ending. */
  function FormatSize(n: nat, ending: string, fixed2: real -> string): (text: string)
    ensures n == 0 ==> text == "0 B"
    ensures n < Base ==> text == Strings.NatToDecimal(n) + " B"
    ensures n < Base ==> '.' !in text && text[|text| - 2..] == " B"
    ensures n >= Base ==> exists k :: 1 <= k <= Top && text == fixed2(CorrectSize(n).value) + " " + Prefixes[k] + ending
  {
    var s := CorrectSize(n);
    var text := Text(s, ending, fixed2);
    assert n >= Base ==> text == fixed2(s.value) + " " + Prefixes[s.unit] + ending;
    text
  }

  /** The text for a count between 1024^k and 1024^(k+1): the quotient
      n / 1024^k in two decimals and the k-th prefix, e.g. "KiB". */
  lemma FormatSizeUnit(n: nat, k: nat, ending: string, fixed2: real -> string)
    requires 1 <= k <= Top
    requires Pow(k) <= n < Pow(k + 1)
    ensures FormatSize(n, ending, fixed2) == fixed2(n as real / Pow(k) as real) + " " + Prefixes[k] + ending
  {
    CorrectSizeUnit(n, k);
  }

  /** The text for a count of at least 1024^6: labelled "P" + ending, with the
      quotient n / 1024^6. */
  lemma FormatSizeBeyondTop(n: nat, ending: string, fixed2: real -> string)
    requires Pow(Steps) <= n
    ensures FormatSize(n, ending, fixed2) == fixed2(n as real / Pow(Steps) as real) + " P" + ending
  {
    CorrectSizeBeyondTop(n);
  }

  lemma PowValues()
    ensures Pow(1) == 1024
    ensures Pow(2) == 1024 * 1024
    ensures Pow(3) == 1024 * 1024 * 1024
  {
  }

  /** Worked examples below 1024: whole bytes. */
  lemma FormatSizeByteExamples(fixed2: real -> string)
    ensures FormatSize(0, DefaultEnding, fixed2) == "0 B"
    ensures FormatSize(1023, DefaultEnding, fixed2) == "1023 B"
  {
    assert Strings.NatToDecimal(1023) == "1023";
  }

  /** 1024 bytes are one kibibyte. */
  lemma FormatSizeKibExample(fixed2: real -> string)
    ensures FormatSize(1024, DefaultEnding, fixed2) == fixed2(1.0) + " KiB"
  {
    PowValues();
    FormatSizeUnit(1024, 1, DefaultEnding, fixed2);
  }

  /** 1536 bytes are one and a half kibibytes. */
  lemma FormatSizeHalfKibExample(fixed2: real -> string)
    ensures FormatSize(1536, DefaultEnding, fixed2) == fixed2(1.5) + " KiB"
  {
    PowValues();
    assert 1536 as real / Pow(1) as real == 1.5;
    FormatSizeUnit(1536, 1, DefaultEnding, fixed2);
  }

  /** 1024^3 bytes are one gibibyte. */
  lemma FormatSizeGibExample(fixed2: real -> string)
    ensures FormatSize(Pow(3), DefaultEnding, fixed2) == fixed2(1.0) + " GiB"
  {
    PowStep(3);
    FormatSizeUnit(Pow(3), 3, DefaultEnding, fixed2);
  }

  /** 1024^6 bytes are labelled as a single pebibyte. */
  lemma FormatSizeTopExample(fixed2: real -> string)
    ensures FormatSize(Pow(Steps), DefaultEnding, fixed2) == fixed2(1.0) + " PiB"
  {
    FormatSizeBeyondTop(Pow(Steps), DefaultEnding, fixed2);
  }
}
