/** The disk-space probe: fails when the used share of the filesystem holding
    a directory is above a threshold percentage. `os.Stat` and `statfs` are
    system calls; their results are parameters here. */
module DiskSpace {
  import opened Checker

  const TwoTo64: int := 0x1_0000_0000_0000_0000

  newtype uint64 = x: int | 0 <= x < 0x1_0000_0000_0000_0000
  newtype int64 = x: int | -0x8000_0000_0000_0000 <= x < 0x8000_0000_0000_0000

  /** Go's `*` on `uint64`: the product modulo 2^64. */
  function Mul(a: uint64, b: uint64): uint64 {
    ((a as int * b as int) % TwoTo64) as uint64
  }

  /** Go's `-` on `uint64`: the difference modulo 2^64. */
  function Sub(a: uint64, b: uint64): uint64 {
    ((a as int - b as int) % TwoTo64) as uint64
  }

  /** Go's conversion `uint64(x)` of an `int64`: the same bits, so modulo 2^64. */
  function ToUint64(x: int64): uint64 {
    (x as int % TwoTo64) as uint64
  }

  /** The fields of `unix.Statfs_t` the probe reads: total and free blocks, and
      the block size. */
  datatype Statfs = Statfs(blocks: uint64, bfree: uint64, bsize: int64)

  /** What `os.Stat(dir)` returned: no error, or an error with its message. */
  datatype StatResult = Found | StatError(cause: string)

  /** What the injected `statfs(dir, &fs)` returned: the filled structure, or
      an error with its message. */
  datatype StatfsResult = Filled(fs: Statfs) | StatfsError(cause: string)

  /** The value `DiskSpace(dir, threshold)` builds: the directory and the
      threshold, stored unchanged. The `statfs` dependency it also stores is
      the `StatfsResult` parameter of `Check`. */
  datatype DiskSpace = DiskSpace(dir: string, threshold: uint64)

  function Total(fs: Statfs): uint64 {
    Mul(fs.blocks, ToUint64(fs.bsize))
  }

  function Free(fs: Statfs): uint64 {
    Mul(fs.bfree, ToUint64(fs.bsize))
  }

  function Used(fs: Statfs): uint64 {
    Sub(Total(fs), Free(fs))
  }

  /** `100 * used / total`, all in `uint64`. Dividing by a zero total is a
      run-time panic in Go; here it is a precondition. */
  function UsedPercentage(fs: Statfs): uint64
    requires Total(fs) != 0
  {
    Div(Mul(100, Used(fs)), Total(fs))
  }

  /** Go's `/` on `uint64`: the floor quotient, which cannot overflow. */
  function Div(a: uint64, b: uint64): uint64
    requires b != 0
  {
    QuotientAtMost(a as int, b as int);
    (a as int / b as int) as uint64
  }

  /** A floor quotient by a positive divisor is at most the dividend. */
  lemma QuotientAtMost(a: nat, d: nat)
    requires d > 0
    ensures a / d <= a
  {
    var q, r := a / d, a % d;
    assert a == q * d + r && r >= 0;
    if q > a {
      ProductAtLeast(q, d);
    }
  }

  /** Multiplying by a positive integer does not shrink a natural number. */
  lemma ProductAtLeast(q: nat, d: nat)
    requires d >= 1
    ensures q * d >= q
  {
    assert q * d == q * (d - 1) + q;
  }

  /** The checks reach the division: the directory exists and statfs succeeded. */
  predicate ReachesDivision(stat: StatResult, statfs: StatfsResult) {
    stat.Found? && statfs.Filled?
  }

  /** The decimal digits of `n`, as `%d` prints them. */
  function Decimal(n: nat): (s: string)
    ensures |s| > 0
    ensures forall i :: 0 <= i < |s| ==> IsDigit(s[i])
  {
    if n < 10 then [Digit(n)] else Decimal(n / 10) + [Digit(n % 10)]
  }

  predicate IsDigit(c: char) {
    '0' <= c <= '9'
  }

  function Digit(d: nat): (c: char)
    requires d < 10
    ensures IsDigit(c)
  {
    ['0', '1', '2', '3', '4', '5', '6', '7', '8', '9'][d]
  }

  /** The number a string of decimal digits denotes. */
  function DecimalValue(s: string): nat {
    if s == [] then 0
    else 10 * DecimalValue(s[..|s| - 1]) + DigitValue(s[|s| - 1])
  }

  function DigitValue(c: char): nat {
    if IsDigit(c) then (c as int - '0' as int) else 0
  }

  /** The message of a threshold breach: `used: <p>% threshold: <t>% location: <dir>`. */
  function BreachMessage(used: uint64, threshold: uint64, dir: string): string {
    "used: " + (Decimal(used as nat) + ("% threshold: " + (Decimal(threshold as nat) + ("% location: " + dir))))
  }

  /** `diskSpace.Check`, as written: a stat error, then a statfs error, then the
      threshold test, which fails only strictly above the threshold. */
  function Check(ds: DiskSpace, stat: StatResult, statfs: StatfsResult): Outcome
    requires ReachesDivision(stat, statfs) ==> Total(statfs.fs) != 0
  {
    if stat.StatError? then
      Fail("filesystem not found: " + stat.cause)
    else if statfs.StatfsError? then
      Fail("error looking for " + ds.dir + " filesystem stats: " + statfs.cause)
    else if UsedPercentage(statfs.fs) > ds.threshold then
      Fail(BreachMessage(UsedPercentage(statfs.fs), ds.threshold, ds.dir))
    else
      Pass
  }

  /** Statistics a pseudo filesystem can legitimately report (no blocks at
      all) reach the division in `Check` with a zero total: the source divides
      by zero there and the Go runtime panics, taking the process down. */
  lemma ZeroBlockFilesystemDividesByZero()
    ensures var fs := Statfs(0, 0, 4096);
            ReachesDivision(Found, Filled(fs)) && Total(fs) == 0
  {
  }

  /** `Check` with the zero total turned into an ordinary failure, as a probe
      is meant to report every problem as a returned error: defined on every
      input, and equal to `Check` wherever `Check` is defined. */
  function CheckGuarded(ds: DiskSpace, stat: StatResult, statfs: StatfsResult): (r: Outcome)
    ensures (ReachesDivision(stat, statfs) ==> Total(statfs.fs) != 0) ==> r == Check(ds, stat, statfs)
    ensures ReachesDivision(stat, statfs) && Total(statfs.fs) == 0 ==>
              r == Fail("error looking for " + ds.dir + " filesystem stats: zero total size")
  {
    if ReachesDivision(stat, statfs) && Total(statfs.fs) == 0 then
      Fail("error looking for " + ds.dir + " filesystem stats: zero total size")
    else
      Check(ds, stat, statfs)
  }

  /** The two early exits. A failed `os.Stat` decides the outcome on its own:
      statfs is never consulted, so its result makes no difference. A failed
      statfs is reported with the directory it was asked about. */
  lemma SyscallErrorsExitEarly(ds: DiskSpace, cause: string, s1: StatfsResult, s2: StatfsResult)
    ensures Check(ds, StatError(cause), s1) == Check(ds, StatError(cause), s2)
    ensures Check(ds, StatError(cause), s1) == Fail("filesystem not found: " + cause)
    ensures Check(ds, Found, StatfsError(cause)) ==
              Fail("error looking for " + ds.dir + " filesystem stats: " + cause)
  {
  }

  /** Once both system calls succeed, the probe fails exactly when the used
      percentage is strictly above the threshold; equal to it passes. */
  lemma ThresholdIsStrict(ds: DiskSpace, fs: Statfs)
    requires Total(fs) != 0
    ensures Check(ds, Found, Filled(fs)).Fail? <==> UsedPercentage(fs) > ds.threshold
    ensures UsedPercentage(fs) == ds.threshold ==> Check(ds, Found, Filled(fs)) == Pass
  {
  }

  /** Reading the digits back gives the number printed. */
  lemma {:induction false} DecimalRoundTrip(n: nat)
    ensures DecimalValue(Decimal(n)) == n
  {
    if n >= 10 {
      DecimalRoundTrip(n / 10);
      var s := Decimal(n / 10) + [Digit(n % 10)];
      assert s[..|s| - 1] == Decimal(n / 10);
    }
  }

  /** Equal strings with a common prefix have equal remainders. */
  lemma StripPrefix(a: string, x: string, y: string)
    requires a + x == a + y
    ensures x == y
  {
    assert x == (a + x)[|a|..];
    assert y == (a + y)[|a|..];
  }

  /** A run of digits followed by a non-digit splits one way only. */
  lemma SplitBeforeNonDigit(x: string, y: string, x': string, y': string)
    requires forall i :: 0 <= i < |x| ==> IsDigit(x[i])
    requires forall i :: 0 <= i < |x'| ==> IsDigit(x'[i])
    requires |y| > 0 && !IsDigit(y[0]) && |y'| > 0 && !IsDigit(y'[0])
    requires x + y == x' + y'
    ensures x == x' && y == y'
  {
    var m := if |x| <= |x'| then |x| else |x'|;
    assert (x + y)[m] == (x' + y')[m];
    assert IsDigit((x + y)[m]) <==> m < |x|;
    assert IsDigit((x' + y')[m]) <==> m < |x'|;
    assert x == (x + y)[..|x|];
    assert x' == (x' + y')[..|x'|];
    assert y == (x + y)[|x|..];
    assert y' == (x' + y')[|x'|..];
  }

  /** The breach message embeds the used percentage, the threshold and the
      directory so that all three can be read back from it: different breaches
      give different messages. */
  lemma BreachMessageDeterminesFields(p1: uint64, t1: uint64, d1: string, p2: uint64, t2: uint64, d2: string)
    requires BreachMessage(p1, t1, d1) == BreachMessage(p2, t2, d2)
    ensures p1 == p2 && t1 == t2 && d1 == d2
  {
    var tail1, tail2 := "% location: " + d1, "% location: " + d2;
    var rest1 := "% threshold: " + (Decimal(t1 as nat) + tail1);
    var rest2 := "% threshold: " + (Decimal(t2 as nat) + tail2);
    StripPrefix("used: ", Decimal(p1 as nat) + rest1, Decimal(p2 as nat) + rest2);
    SplitBeforeNonDigit(Decimal(p1 as nat), rest1, Decimal(p2 as nat), rest2);
    DecimalRoundTrip(p1 as nat);
    DecimalRoundTrip(p2 as nat);
    StripPrefix("% threshold: ", Decimal(t1 as nat) + tail1, Decimal(t2 as nat) + tail2);
    SplitBeforeNonDigit(Decimal(t1 as nat), tail1, Decimal(t2 as nat), tail2);
    DecimalRoundTrip(t1 as nat);
    DecimalRoundTrip(t2 as nat);
    StripPrefix("% location: ", d1, d2);
  }

  /** A product of a positive factor with a factor of at least one is at least
      the first factor. */
  lemma MulAtLeast(k: int, d: int)
    requires k >= 1 && d > 0
    ensures k * d >= d
  {
    assert k * d == d + (k - 1) * d;
  }

  /** Division is unique: a quotient and remainder in range are the ones `/`
      computes. */
  lemma DivUnique(x: int, d: int, q: int, r: int)
    requires d > 0 && 0 <= r < d && x == q * d + r
    ensures x / d == q
  {
    var q', r' := x / d, x % d;
    assert x == q' * d + r';
    var k := q - q';
    assert k * d == r' - r;
    if k >= 1 {
      MulAtLeast(k, d);
    } else if k <= -1 {
      MulAtLeast(-k, d);
    }
  }

  /** Scaling numerator and denominator by the same positive factor leaves the
      floor quotient unchanged. */
  lemma DivCancel(a: nat, b: nat, s: nat)
    requires b > 0 && s > 0
    ensures (a * s) / (b * s) == a / b
  {
    var q, r := a / b, a % b;
    assert a == q * b + r;
    assert a * s == q * (b * s) + r * s;
    assert r * s < b * s;
    DivUnique(a * s, b * s, q, r * s);
  }

  /** Non-negative products are monotone in their first factor. */
  lemma MulMonotone(a: int, b: int, s: int)
    requires 0 <= a <= b && s >= 0
    ensures a * s <= b * s
  {
    assert b * s == a * s + (b - a) * s;
  }

  /** `Mul` is the plain product when that fits in 64 bits. */
  lemma MulNoWrap(a: uint64, b: uint64)
    requires a as int * b as int < TwoTo64
    ensures Mul(a, b) as int == a as int * b as int
  {
  }

  /** `Sub` is the plain difference when that is not negative. */
  lemma SubNoWrap(a: uint64, b: uint64)
    requires b <= a
    ensures Sub(a, b) as int == a as int - b as int
  {
  }

  /** The share arithmetic behind `PercentageOfUsedBlocks`, on plain integers. */
  lemma ShareOfBytes(b: int, f: int, s: int)
    requires 0 <= f <= b && 0 < b && 0 < s
    ensures 0 <= f * s <= b * s
    ensures 100 * (b * s - f * s) / (b * s) == 100 * (b - f) / b
    ensures 100 * (b - f) / b <= 100
  {
    MulMonotone(f, b, s);
    MulAtLeast(b, s);
    assert 100 * (b * s - f * s) == (100 * (b - f)) * s;
    DivCancel(100 * (b - f), b, s);
  }

  /** On a filesystem small enough that nothing wraps (100 times its size in
      bytes fits in 64 bits), the percentage is the true share of used blocks,
      rounded down, whatever the block size; it is at most 100. */
  lemma PercentageOfUsedBlocks(fs: Statfs)
    requires fs.bsize > 0 && 0 < fs.blocks && fs.bfree <= fs.blocks
    requires 100 * (fs.blocks as int * fs.bsize as int) < TwoTo64
    ensures Total(fs) != 0
    ensures UsedPercentage(fs) as int == 100 * (fs.blocks as int - fs.bfree as int) / fs.blocks as int
    ensures UsedPercentage(fs) <= 100
  {
    var b, f, s := fs.blocks as int, fs.bfree as int, fs.bsize as int;
    ShareOfBytes(b, f, s);
    var size := ToUint64(fs.bsize);
    assert size as int == s;
    MulNoWrap(fs.blocks, size);
    MulNoWrap(fs.bfree, size);
    var total, free := Total(fs), Free(fs);
    assert total as int == b * s && free as int == f * s;
    SubNoWrap(total, free);
    var used := Used(fs);
    assert used as int == b * s - f * s;
    MulNoWrap(100, used);
    assert Mul(100, used) as int == 100 * (b * s - f * s);
  }

  /** Above that size the product `100 * used` wraps: a full filesystem of
      2^58 bytes (256 PiB) reports 36%. */
  lemma PercentageWrapsOnHugeFilesystems()
    ensures var fs := Statfs(0x4000_0000_0000, 0, 4096);
            Total(fs) != 0 && UsedPercentage(fs) == 36
  {
    var fs := Statfs(0x4000_0000_0000, 0, 4096);
    assert Total(fs) == 0x400_0000_0000_0000;
    assert Used(fs) == 0x400_0000_0000_0000;
    assert Mul(100, Used(fs)) == 0x9000_0000_0000_0000;
  }
}
