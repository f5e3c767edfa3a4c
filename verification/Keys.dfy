/**
  Item keys: six fields compared from the most significant down, stepped up and
  down in place with carries, and ranges of keys.
*/
module Keys {
  const U8 := 0x100
  const U64 := 0x1_0000_0000_0000_0000

  type U8Field = x: nat | x < U8
  type U64Field = x: nat | x < U64

  datatype Key = Key(zone: U8Field, first: U64Field, typ: U8Field, second: U64Field, third: U64Field, fourth: U8Field)

  /** One more than the number of the all-ones key. */
  const KEYS: nat := 0x100_0000_0000_0000_0000_0000_0000_0000_0000_0000_0000_0000_0000_0000

  const MAX_KEY: nat := KEYS - 1

  /** The place of a key in the order of all keys: its fields read as the digits of a number. */
  function Number(k: Key): (r: nat)
    ensures r <= MAX_KEY
  {
    ((((k.zone * U64 + k.first) * U8 + k.typ) * U64 + k.second) * U64 + k.third) * U8 + k.fourth
  }

  const ZEROS := Key(0, 0, 0, 0, 0, 0)
  const ONES := Key(U8 - 1, U64 - 1, U8 - 1, U64 - 1, U64 - 1, U8 - 1)

  function Cmp(a: nat, b: nat): int {
    if a == b then 0 else if a > b then 1 else -1
  }

  /** Comparing field by field is comparing numbers, so different keys have different numbers. */
  function Compare(a: Key, b: Key): (r: int)
    ensures r == Cmp(Number(a), Number(b))
    ensures r == 0 <==> a == b
  {
    if Cmp(a.zone, b.zone) != 0 then Cmp(a.zone, b.zone)
    else if Cmp(a.first, b.first) != 0 then Cmp(a.first, b.first)
    else if Cmp(a.typ, b.typ) != 0 then Cmp(a.typ, b.typ)
    else if Cmp(a.second, b.second) != 0 then Cmp(a.second, b.second)
    else if Cmp(a.third, b.third) != 0 then Cmp(a.third, b.third)
    else Cmp(a.fourth, b.fourth)
  }

  /** Ranges compare as equal exactly when they share a key. */
  function CompareRanges(aStart: Key, aEnd: Key, bStart: Key, bEnd: Key): (r: int)
    requires Compare(aStart, aEnd) <= 0 && Compare(bStart, bEnd) <= 0
    ensures r == 0 <==> exists k: Key :: Within(k, aStart, aEnd) && Within(k, bStart, bEnd)
    ensures r < 0 <==> Number(aEnd) < Number(bStart)
    ensures r > 0 <==> Number(bEnd) < Number(aStart)
  {
    if Compare(aEnd, bStart) < 0 then -1
    else if Compare(aStart, bEnd) > 0 then 1
    else
      assert Within(if Number(aStart) < Number(bStart) then bStart else aStart, aStart, aEnd);
      assert Within(if Number(aStart) < Number(bStart) then bStart else aStart, bStart, bEnd);
      0
  }

  predicate Within(k: Key, start: Key, end: Key) {
    Number(start) <= Number(k) <= Number(end)
  }

  /** A field one up or down, wrapping at its width. */
  function Up(x: nat, width: nat): (r: nat)
    requires x < width
    ensures r < width
  {
    if x == width - 1 then 0 else x + 1
  }

  function Down(x: nat, width: nat): (r: nat)
    requires x < width
    ensures r < width
  {
    if x == 0 then width - 1 else x - 1
  }

  /** The key after and the key before, around the ends. */
  function Inc(k: nat): (r: nat)
    requires k <= MAX_KEY
    ensures r <= MAX_KEY
  {
    if k == MAX_KEY then 0 else k + 1
  }

  function Dec(k: nat): (r: nat)
    requires k <= MAX_KEY
    ensures r <= MAX_KEY
  {
    if k == 0 then MAX_KEY else k - 1
  }

  class KeyCell {
    var key: Key

    constructor (k: Key)
      ensures key == k
    {
      key := k;
    }

    method SetZeros()
      modifies this
      ensures Number(key) == 0
    {
      key := ZEROS;
    }

    method SetOnes()
      modifies this
      ensures Number(key) == MAX_KEY
    {
      key := ONES;
    }

    /** Carrying from the last field up adds exactly one in the 216-bit order. */
    method Increment()
      modifies this
      ensures Number(key) == Inc(Number(old(key)))
    {
      key := key.(fourth := Up(key.fourth, U8));
      if key.fourth != 0 { return; }
      key := key.(third := Up(key.third, U64));
      if key.third != 0 { return; }
      key := key.(second := Up(key.second, U64));
      if key.second != 0 { return; }
      key := key.(typ := Up(key.typ, U8));
      if key.typ != 0 { return; }
      key := key.(first := Up(key.first, U64));
      if key.first != 0 { return; }
      key := key.(zone := Up(key.zone, U8));
    }

    /** Borrowing from the last field up takes exactly one away. */
    method Decrement()
      modifies this
      ensures Number(key) == Dec(Number(old(key)))
    {
      key := key.(fourth := Down(key.fourth, U8));
      if key.fourth != U8 - 1 { return; }
      key := key.(third := Down(key.third, U64));
      if key.third != U64 - 1 { return; }
      key := key.(second := Down(key.second, U64));
      if key.second != U64 - 1 { return; }
      key := key.(typ := Down(key.typ, U8));
      if key.typ != U8 - 1 { return; }
      key := key.(first := Down(key.first, U64));
      if key.first != U64 - 1 { return; }
      key := key.(zone := Down(key.zone, U8));
    }
  }
}
