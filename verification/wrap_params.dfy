/** The SQLite parameter conversions of src/database/wrap_params.rs. SQLite
    has no unsigned 64-bit integer, so a `u64` id goes into an `i64` column by
    reinterpreting its eight bytes, and comes back out the same way. */
module WrapParams {
  import opened Wrappers
  import opened Ints

  // ---------------------------------------------------------------------------
  // Bytes
  // ---------------------------------------------------------------------------

  /** 256 to the power `n`. */
  function Pow256(n: nat): (p: nat)
    ensures p > 0
  {
    if n == 0 then 1 else 256 * Pow256(n - 1)
  }

  /** The `n` lowest bytes of `x`, least significant first: `to_ne_bytes` on
      the little-endian targets the bot runs on. Both directions of the
      reinterpretation use the same order, so the order does not show in
      their results. */
  function Bytes(x: nat, n: nat): (bs: seq<u8>)
    ensures |bs| == n
  {
    if n == 0 then [] else [x % 256] + Bytes(x / 256, n - 1)
  }

  /** The unsigned number whose bytes, least significant first, are `bs`:
      `from_ne_bytes` read as unsigned. */
  function BytesValue(bs: seq<u8>): nat
  {
    if |bs| == 0 then 0 else bs[0] + 256 * BytesValue(bs[1..])
  }

  /** `n` bytes hold every number below 256^n exactly. */
  lemma {:induction false} BytesRoundTrip(x: nat, n: nat)
    requires x < Pow256(n)
    ensures BytesValue(Bytes(x, n)) == x
  {
    if n > 0 {
      assert x == 256 * (x / 256) + x % 256;
      BytesRoundTrip(x / 256, n - 1);
    }
  }

  /** The value of `n` bytes is below 256^n. */
  lemma {:induction false} BytesValueBound(bs: seq<u8>)
    ensures BytesValue(bs) < Pow256(|bs|)
  {
    if |bs| > 0 {
      BytesValueBound(bs[1..]);
    }
  }

  /** Writing the value of a byte sequence back gives the same bytes. */
  lemma {:induction false} ValueBytes(bs: seq<u8>)
    ensures Bytes(BytesValue(bs), |bs|) == bs
  {
    if |bs| > 0 {
      var v := BytesValue(bs[1..]);
      var x := bs[0] + 256 * v;
      assert x % 256 == bs[0] && x / 256 == v by {
        DivMod256(x, v, bs[0]);
      }
      ValueBytes(bs[1..]);
      assert bs == [bs[0]] + bs[1..];
    }
  }

  /** The quotient and remainder by 256 are unique. */
  lemma DivMod256(x: int, q: int, r: int)
    requires x == 256 * q + r && 0 <= r < 256
    ensures x % 256 == r && x / 256 == q
  {
  }

  lemma Pow256Of8()
    ensures Pow256(8) == TWO_TO_THE_64
  {
  }

  // ---------------------------------------------------------------------------
  // The reinterpretation
  // ---------------------------------------------------------------------------

  /** `u.to_ne_bytes()` */
  function U64Bytes(u: u64): (bs: seq<u8>)
    ensures |bs| == 8
  {
    Bytes(u, 8)
  }

  /** `i.to_ne_bytes()`: two's complement, so a negative `i` has the bytes of
      `i + 2^64`. */
  function I64Bytes(i: i64): (bs: seq<u8>)
    ensures |bs| == 8
  {
    Bytes(if i < 0 then i + TWO_TO_THE_64 else i, 8)
  }

  /** `u64::from_ne_bytes` */
  function U64FromBytes(bs: seq<u8>): (u: u64)
    requires |bs| == 8
  {
    BytesValueBound(bs);
    Pow256Of8();
    BytesValue(bs)
  }

  /** `i64::from_ne_bytes`: the top bit is the sign. */
  function I64FromBytes(bs: seq<u8>): (i: i64)
    requires |bs| == 8
  {
    var v := U64FromBytes(bs);
    if v < TWO_TO_THE_63 then v else v - TWO_TO_THE_64
  }

  /** `u64_to_i64_bitwise`: the same eight bytes read as an `i64`, which is `u`
      itself below 2^63 and `u - 2^64` from there on. */
  function U64ToI64(u: u64): (i: i64)
    ensures u < TWO_TO_THE_63 ==> i == u
    ensures u >= TWO_TO_THE_63 ==> i == u - TWO_TO_THE_64
  {
    Pow256Of8();
    BytesRoundTrip(u, 8);
    I64FromBytes(U64Bytes(u))
  }

  /** `i64_to_u64_bitwise`: the same eight bytes read as a `u64`, which is `i`
      itself when it is not negative and `i + 2^64` otherwise. */
  function I64ToU64(i: i64): (u: u64)
    ensures i >= 0 ==> u == i
    ensures i < 0 ==> u == i + TWO_TO_THE_64
  {
    Pow256Of8();
    BytesRoundTrip(if i < 0 then i + TWO_TO_THE_64 else i, 8);
    U64FromBytes(I64Bytes(i))
  }

  /** The conversion changes no bit: the `i64` a `u64` becomes has exactly the
      bytes of the `u64`, and the other way round. */
  lemma BitsUnchanged(u: u64, i: i64)
    ensures I64Bytes(U64ToI64(u)) == U64Bytes(u)
    ensures U64Bytes(I64ToU64(i)) == I64Bytes(i)
  {
  }

  /** Every eight bytes are the bytes of exactly one `u64` and of exactly one
      `i64`: reading them either way and writing the number back gives the
      same bytes. */
  lemma FromBytesRoundTrip(bs: seq<u8>)
    requires |bs| == 8
    ensures U64Bytes(U64FromBytes(bs)) == bs
    ensures I64Bytes(I64FromBytes(bs)) == bs
  {
    ValueBytes(bs);
  }

  /** Storing an id and reading it back gives the id: each conversion undoes
      the other on every input. */
  lemma ReinterpretRoundTrip(u: u64, i: i64)
    ensures I64ToU64(U64ToI64(u)) == u
    ensures U64ToI64(I64ToU64(i)) == i
  {
  }

  // ---------------------------------------------------------------------------
  // Parameter values
  // ---------------------------------------------------------------------------

  /** The `rusqlite::types::Value` variants the conversions produce. */
  datatype SqlValue = Integer(int64: i64) | Text(text: string)

  /** `IntoValue for u64`: the id stored as its reinterpreted `i64`. */
  function U64Value(u: u64): (v: SqlValue)
    ensures v.Integer?
    ensures u < TWO_TO_THE_63 ==> v.int64 == u
  {
    Integer(U64ToI64(u))
  }

  /** `IntoValue for bool`: 1 for `true`, 0 for `false`. */
  function BoolValue(b: bool): (v: SqlValue)
    ensures v.Integer? && (v.int64 == 1 || v.int64 == 0)
    ensures b <==> v.int64 != 0
  {
    Integer(if b then 1 else 0)
  }

  /** How the repository reads an id column: the `i64` it holds, converted
      back with `i64_to_u64_bitwise`. */
  function ReadU64(v: SqlValue): (r: Option<u64>)
    ensures v.Integer? <==> r.Some?
  {
    match v
    case Integer(i) => Some(I64ToU64(i))
    case Text(_) => None
  }

  /** SQLite's reading of a flag: any non-zero integer is true. */
  function ReadBool(v: SqlValue): (r: Option<bool>)
    ensures v.Integer? <==> r.Some?
  {
    match v
    case Integer(i) => Some(i != 0)
    case Text(_) => None
  }

  /** Every id and every flag written as a parameter is read back unchanged,
      so two different ids never share a stored value. */
  lemma ValuesReadBack(u: u64, b: bool)
    ensures ReadU64(U64Value(u)) == Some(u)
    ensures ReadBool(BoolValue(b)) == Some(b)
    ensures forall u' :: U64Value(u') == U64Value(u) ==> u' == u
  {
    ReinterpretRoundTrip(u, 0);
    forall u' | U64Value(u') == U64Value(u)
      ensures u' == u
    {
      ReinterpretRoundTrip(u', 0);
    }
  }
}
