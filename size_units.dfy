/**
 * Human-readable file sizes: a byte count is shown in the largest unit not larger than it,
 * binary (KiB = 1024 bytes, ...) or decimal (KB = 1000 bytes, ...), up to tera.
 * The number shown is the byte count divided by the unit, an exact `real` here.
 */
module SizeUnits {
  datatype Unit = Bytes | KiB | MiB | GiB | TiB | KB | MB | GB | TB

  datatype Prefix = Binary | Decimal

  /** The readout appended to the number. */
  function Label(u: Unit): string
  {
    match u
    case Bytes => " bytes"
    case KiB => " KiB"
    case MiB => " MiB"
    case GiB => " GiB"
    case TiB => " TiB"
    case KB => " KB"
    case MB => " MB"
    case GB => " GB"
    case TB => " TB"
  }

  /** The number of bytes in one unit. */
  function BytesIn(u: Unit): (r: real)
    ensures r >= 1.0
  {
    match u
    case Bytes => 1.0
    case KiB => 1024.0
    case MiB => 1024.0 * 1024.0
    case GiB => 1024.0 * 1024.0 * 1024.0
    case TiB => 1024.0 * 1024.0 * 1024.0 * 1024.0
    case KB => 1000.0
    case MB => 1000.0 * 1000.0
    case GB => 1000.0 * 1000.0 * 1000.0
    case TB => 1000.0 * 1000.0 * 1000.0 * 1000.0
  }

  predicate IsBinary(u: Unit)
  {
    u in {Bytes, KiB, MiB, GiB, TiB}
  }

  predicate IsDecimal(u: Unit)
  {
    u in {Bytes, KB, MB, GB, TB}
  }

  /** `ConvertToBinaryPrefix` (and the oldest `ConvertFileSizeToAppropriateUnits`): bytes below 1 KiB, then KiB, MiB, GiB, and TiB from 1 TiB on. */
  function ConvertToBinaryPrefix(size: real): (r: (real, Unit))
    ensures IsBinary(r.1) && r.0 * BytesIn(r.1) == size
    ensures r.1 == Bytes <==> size < 1024.0
    ensures r.1 != Bytes ==> BytesIn(r.1) <= size
    ensures r.1 != TiB ==> size < BytesIn(r.1) * 1024.0
  {
    if size < 1024.0 then (size, Bytes)
    else if size < 1024.0 * 1024.0 then (size / 1024.0, KiB)
    else if size < 1024.0 * 1024.0 * 1024.0 then (size / (1024.0 * 1024.0), MiB)
    else if size < 1024.0 * 1024.0 * 1024.0 * 1024.0 then (size / (1024.0 * 1024.0 * 1024.0), GiB)
    else (size / (1024.0 * 1024.0 * 1024.0 * 1024.0), TiB)
  }

  /** `ConvertToDecimalPrefix`: the same choice with powers of 1000. */
  function ConvertToDecimalPrefix(size: real): (r: (real, Unit))
    ensures IsDecimal(r.1) && r.0 * BytesIn(r.1) == size
    ensures r.1 == Bytes <==> size < 1000.0
    ensures r.1 != Bytes ==> BytesIn(r.1) <= size
    ensures r.1 != TB ==> size < BytesIn(r.1) * 1000.0
  {
    if size < 1000.0 then (size, Bytes)
    else if size < 1000.0 * 1000.0 then (size / 1000.0, KB)
    else if size < 1000.0 * 1000.0 * 1000.0 then (size / (1000.0 * 1000.0), MB)
    else if size < 1000.0 * 1000.0 * 1000.0 * 1000.0 then (size / (1000.0 * 1000.0 * 1000.0), GB)
    else (size / (1000.0 * 1000.0 * 1000.0 * 1000.0), TB)
  }

  /** `ConvertFileSizeToNumericPrefix` / `ToPrefixedSize`: the family the prefix names. */
  function ConvertFileSizeToNumericPrefix(size: nat, prefix: Prefix): (r: (real, Unit))
    ensures prefix == Binary ==> IsBinary(r.1)
    ensures prefix == Decimal ==> IsDecimal(r.1)
    ensures r.0 * BytesIn(r.1) == size as real
  {
    match prefix
    case Binary => ConvertToBinaryPrefix(size as real)
    case Decimal => ConvertToDecimalPrefix(size as real)
  }

  /** The number shown is at least 1 and below 1024 (1000), except in bytes and in the largest unit. */
  lemma ShownNumberInRange(size: real)
    requires size >= 0.0
    ensures var (n, u) := ConvertToBinaryPrefix(size);
      (u != Bytes ==> 1.0 <= n) && (u != TiB ==> n < 1024.0)
    ensures var (n, u) := ConvertToDecimalPrefix(size);
      (u != Bytes ==> 1.0 <= n) && (u != TB ==> n < 1000.0)
  {
    var (n, u) := ConvertToBinaryPrefix(size);
    QuotientBounds(size, n, BytesIn(u), 1024.0);
    var (m, v) := ConvertToDecimalPrefix(size);
    QuotientBounds(size, m, BytesIn(v), 1000.0);
  }

  lemma QuotientBounds(size: real, n: real, unit: real, base: real)
    requires unit >= 1.0 && n * unit == size
    ensures unit <= size ==> 1.0 <= n
    ensures size < unit * base ==> n < base
  {
  }
}
