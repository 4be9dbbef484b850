/** Byte counts with a binary unit. */
module Display {
  import opened Decimal

  /** Go's 64-bit integers; every operation on them is checked for overflow. */
  newtype int64 = x: int | MIN_INT64 <= x <= MAX_INT64

  const UNITS: seq<string> := ["KB", "MB", "GB", "TB", "PB", "EB"]

  /** The unit that stands for 1024^(e+1) bytes. */
  function UnitName(e: nat): string {
    match e
    case 0 => "KB"
    case 1 => "MB"
    case 2 => "GB"
    case 3 => "TB"
    case 4 => "PB"
    case _ => "EB"
  }

  /** A count of bytes, or a quotient of two and the name of the unit. */
  datatype Shown = Bytes(count: int64) | Quotient(count: int64, div: int64, unit: string)

  lemma UnitNames(e: nat)
    requires e <= 5
    ensures UNITS[e] == UnitName(e)
  {
  }

  function Power1024(e: nat): (p: int)
    ensures p >= 1
  {
    if e == 0 then 1 else 1024 * Power1024(e - 1)
  }

  lemma {:induction false} PowersGrow(d: nat, e: nat)
    requires d <= e
    ensures Power1024(d) <= Power1024(e)
  {
    if d < e {
      PowersGrow(d, e - 1);
    }
  }

  lemma SeventhPower()
    ensures Power1024(7) > MAX_INT64
  {
    assert Power1024(3) == 1024 * Power1024(2) && Power1024(2) == 1024 * Power1024(1);
    assert Power1024(5) == 1024 * Power1024(4) && Power1024(4) == 1024 * Power1024(3);
  }

  lemma SeventhPowerOverflows(e: nat)
    requires Power1024(e) <= MAX_INT64
    ensures e <= 6
  {
    SeventhPower();
    if e >= 7 {
      PowersGrow(7, e);
    }
  }

  /** Unit number e is the greatest that the count fills. */
  predicate Fills(b: int, e: nat) {
    Power1024(e + 1) <= b < Power1024(e + 2)
  }

  lemma ScaledUp(m: int, n: int, div: int)
    requires m <= n && div >= 1
    ensures m * div <= n * div
  {
  }

  lemma QuotientStep(n: int, q: int, div: int, b: int)
    requires div >= 1 && 1024 * q <= n < 1024 * (q + 1) && q >= 1 && n * div <= b < (n + 1) * div
    ensures q * (1024 * div) <= b < (q + 1) * (1024 * div) && 1024 * div <= b
  {
    ScaledUp(1024 * q, n, div);
    ScaledUp(n + 1, 1024 * (q + 1), div);
    ScaledUp(1024, n, div);
    assert q * (1024 * div) == (1024 * q) * div && (q + 1) * (1024 * div) == (1024 * (q + 1)) * div;
  }

  /** Ends with div = 1024^(exp+1) and a unit in range, for every count; no product overflows. */
  method FormatBytes(b: int64) returns (r: Shown)
    ensures b < 1024 ==> r == Bytes(b)
    ensures b >= 1024 ==> exists e :: 0 <= e <= 5 && Fills(b as int, e) && Power1024(e + 1) <= MAX_INT64
                                      && r == Quotient(b, Power1024(e + 1) as int64, UnitName(e))
  {
    if b < 1024 {
      return Bytes(b);
    }
    var div: int64, exp: nat := 1024, 0;
    var n := b / 1024;
    assert Power1024(1) == 1024 * Power1024(0);
    while n >= 1024
      invariant n >= 1 && div >= 1 && div as int == Power1024(exp + 1)
      invariant n as int * div as int <= b as int < (n as int + 1) * div as int
      decreases n
    {
      QuotientStep(n as int, n as int / 1024, div as int, b as int);
      div := div * 1024;
      exp := exp + 1;
      n := n / 1024;
    }
    Filled(n as int, div as int, b as int);
    SeventhPowerOverflows(exp + 1);
    assert Fills(b as int, exp) by {
      assert Power1024(exp + 2) == 1024 * Power1024(exp + 1);
    }
    UnitNames(exp);
    return Quotient(b, div, UNITS[exp]);
  }

  lemma Filled(n: int, div: int, b: int)
    requires div >= 1 && 1 <= n < 1024 && n * div <= b < (n + 1) * div
    ensures div <= b < 1024 * div
  {
    assert div <= n * div && (n + 1) * div <= 1024 * div;
  }

  /** The unit never shrinks as the count grows, and there is only one for a count. */
  lemma UnitsAreMonotone(b: int, c: int, d: nat, e: nat)
    requires b <= c && Fills(b, d) && Fills(c, e)
    ensures d <= e && (b == c ==> d == e)
  {
    if d > e {
      PowersGrow(e + 2, d + 1);
    } else if d < e {
      PowersGrow(d + 2, e + 1);
    }
  }
}
