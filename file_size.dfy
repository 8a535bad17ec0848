/** Human-readable file sizes in binary units (`format_size`,
    extract_metadata.py lines 65-74). */
module FileSize {

  const Units: seq<string> := ["B", "KB", "MB", "GB", "TB"]

  /** The returned text: the literal "0 B", or an amount with its unit, the
      amount being rendered with two decimals (the rendering is not modelled). */
  datatype SizeText = Literal(text: string) | Formatted(amount: real, unit: string)

  function Pow1024(k: nat): (p: nat)
    ensures p >= 1
  {
    if k == 0 then 1 else 1024 * Pow1024(k - 1)
  }

  lemma {:induction false} Pow1024Monotonic(j: nat, k: nat)
    requires j <= k
    ensures Pow1024(j) <= Pow1024(k)
  {
    if j < k {
      Pow1024Monotonic(j, k - 1);
    }
  }

  /** The largest unit index `i <= top` with `1024^i <= size`, searched from
      the top down: the integer test the division loop amounts to. */
  function UnitIndexBelow(size: nat, top: nat): (i: nat)
    requires size > 0 && top < |Units|
    requires top < |Units| - 1 ==> size < Pow1024(top + 1)
    ensures i <= top
    ensures Pow1024(i) <= size
    ensures i < |Units| - 1 ==> size < Pow1024(i + 1)
  {
    if top == 0 || Pow1024(top) <= size then top else UnitIndexBelow(size, top - 1)
  }

  function UnitIndex(size: nat): (i: nat)
    requires size > 0
  {
    UnitIndexBelow(size, |Units| - 1)
  }

  /** Only one unit index satisfies the bounds. */
  lemma UnitIndexUnique(size: nat, i: nat)
    requires size > 0 && i < |Units|
    requires Pow1024(i) <= size && (i < |Units| - 1 ==> size < Pow1024(i + 1))
    ensures i == UnitIndex(size)
  {
    var k := UnitIndex(size);
    if i < k {
      Pow1024Monotonic(i + 1, k);
    } else if k < i {
      Pow1024Monotonic(k + 1, i);
    }
  }

  /** What `format_size` returns. */
  function SizeOf(size: nat): SizeText
  {
    if size == 0 then Literal("0 B")
    else
      var i := UnitIndex(size);
      Formatted(size as real / Pow1024(i) as real, Units[i])
  }

  /** The amount lies in [1, 1024) unless the unit is already TB, and scaling
      it back by the unit gives the byte count. */
  lemma SizeOfBounds(size: nat)
    requires size > 0
    ensures SizeOf(size).Formatted?
    ensures var r := SizeOf(size);
      && 1.0 <= r.amount
      && (r.unit != "TB" ==> r.amount < 1024.0)
      && r.amount * Pow1024(UnitIndex(size)) as real == size as real
  {
    var i := UnitIndex(size);
    var p := Pow1024(i) as real;
    var amount := size as real / p;
    assert amount * p == size as real;
    assert p <= size as real;
    DivAtLeast(size as real, p, 1.0);
    if i < |Units| - 1 {
      assert size < 1024 * Pow1024(i);
      DivBelow(size as real, p, 1024.0);
    }
  }

  lemma DivAtLeast(x: real, p: real, c: real)
    requires p > 0.0 && c * p <= x
    ensures c <= x / p
  {
    assert x / p * p == x;
  }

  lemma DivBelow(x: real, p: real, c: real)
    requires p > 0.0 && x < c * p
    ensures x / p < c
  {
    assert x / p * p == x;
  }

  /** `format_size`: divides by 1024 until the amount is below 1024 or the
      unit is TB. */
  method FormatSize(size: nat) returns (r: SizeText)
    ensures r == SizeOf(size)
    ensures size == 0 <==> r == Literal("0 B")
    ensures r.Formatted? ==> r.unit in Units && 1.0 <= r.amount && (r.unit != "TB" ==> r.amount < 1024.0)
  {
    if size == 0 {
      return Literal("0 B");
    }
    var i := 0;
    var p: real := size as real;
    while p >= 1024.0 && i < |Units| - 1
      invariant 0 <= i <= |Units| - 1
      invariant Pow1024(i) <= size
      invariant p == size as real / Pow1024(i) as real
      decreases |Units| - 1 - i
    {
      ScaleDown(size, i, p);
      p := p / 1024.0;
      i := i + 1;
    }
    if i < |Units| - 1 {
      BelowNextUnit(size, i, p);
    }
    UnitIndexUnique(size, i);
    r := Formatted(p, Units[i]);
    SizeOfBounds(size);
  }

  /** One division step keeps the amount equal to the size over the unit. */
  lemma ScaleDown(size: nat, i: nat, p: real)
    requires p == size as real / Pow1024(i) as real && p >= 1024.0
    ensures Pow1024(i + 1) <= size
    ensures p / 1024.0 == size as real / Pow1024(i + 1) as real
  {
    var q := Pow1024(i) as real;
    assert p * q == size as real;
    assert 1024.0 * q <= size as real;
  }

  /** Stopping below 1024 means the size is below the next unit. */
  lemma BelowNextUnit(size: nat, i: nat, p: real)
    requires p == size as real / Pow1024(i) as real && p < 1024.0
    ensures size < Pow1024(i + 1)
  {
    var q := Pow1024(i) as real;
    BelowTimes(size as real, q, p);
    assert Pow1024(i + 1) as real == 1024.0 * q;
  }

  lemma BelowTimes(x: real, q: real, p: real)
    requires q > 0.0 && p == x / q && p < 1024.0
    ensures x < 1024.0 * q
  {
    assert p * q == x;
  }
}
