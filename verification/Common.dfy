/** Types and sequence facts shared by the other modules. */
module Common {

  /** An 8-bit byte. */
  newtype byte = x: int | 0 <= x < 256

  type Bytes = seq<byte>

  /** A 256-bit block hash; only equality of hashes matters. */
  type BlockHash = nat

  /** The all-zero hash stands for "no block". */
  const ALL_ZEROS: BlockHash := 0

  datatype Option<+T> = None | Some(value: T)

  datatype Result<+T, +E> = Ok(value: T) | Err(error: E) {
    predicate IsFailure() {
      Err?
    }

    function PropagateFailure<U>(): Result<U, E>
      requires Err?
    {
      Err(error)
    }

    function Extract(): T
      requires Ok?
    {
      value
    }
  }

  function Reverse<T>(s: seq<T>): (r: seq<T>)
    ensures |r| == |s|
    ensures forall i :: 0 <= i < |s| ==> r[i] == s[|s| - 1 - i]
  {
    if s == [] then [] else Reverse(s[1..]) + [s[0]]
  }

  lemma ReverseReverse<T>(s: seq<T>)
    ensures Reverse(Reverse(s)) == s
  {
  }

  lemma ReverseConcat<T>(a: seq<T>, b: seq<T>)
    ensures Reverse(a + b) == Reverse(b) + Reverse(a)
  {
  }

  function Repeated<T>(n: nat, x: T): (r: seq<T>)
    ensures |r| == n && forall i :: 0 <= i < n ==> r[i] == x
  {
    if n == 0 then [] else [x] + Repeated(n - 1, x)
  }

  ghost predicate Distinct<T>(s: seq<T>) {
    forall i, j :: 0 <= i < j < |s| ==> s[i] != s[j]
  }

  ghost function Elements<T(!new)>(s: seq<T>): (e: set<T>)
    ensures forall x :: x in e <==> x in s
  {
    set x | x in s
  }

  /** A duplicate-free sequence has as many elements as positions. */
  lemma DistinctCardinality<T(!new)>(s: seq<T>)
    requires Distinct(s)
    ensures |Elements(s)| == |s|
  {
    if s == [] {
      assert Elements(s) == {};
    } else {
      var rest := s[..|s| - 1];
      var last := s[|s| - 1];
      DistinctCardinality(rest);
      assert last !in rest;
      assert Elements(s) == Elements(rest) + {last};
    }
  }

  /** The number whose base-256 digits are given, least significant first. */
  function LittleEndian(bytes: Bytes): nat {
    if bytes == [] then 0 else bytes[0] as nat + 256 * LittleEndian(bytes[1..])
  }

  function ToLittleEndian(n: nat, width: nat): (b: Bytes)
    ensures |b| == width
  {
    if width == 0 then [] else [(n % 256) as byte] + ToLittleEndian(n / 256, width - 1)
  }

  /** One more than the largest number of `width` bytes. */
  function Pow256(width: nat): nat {
    if width == 0 then 1 else 256 * Pow256(width - 1)
  }

  lemma {:induction false} LittleEndianInverts(n: nat, width: nat)
    requires n < Pow256(width)
    ensures LittleEndian(ToLittleEndian(n, width)) == n
    decreases width
  {
    if width > 0 {
      LittleEndianInverts(n / 256, width - 1);
      var b := ToLittleEndian(n, width);
      assert b[1..] == ToLittleEndian(n / 256, width - 1);
    }
  }

  lemma LowDigit(d: nat, high: nat)
    requires d < 256
    ensures (d + 256 * high) % 256 == d && (d + 256 * high) / 256 == high
  {
  }

  lemma {:induction false} ToLittleEndianInverts(bytes: Bytes)
    ensures LittleEndian(bytes) < Pow256(|bytes|)
    ensures ToLittleEndian(LittleEndian(bytes), |bytes|) == bytes
    decreases |bytes|
  {
    if bytes != [] {
      ToLittleEndianInverts(bytes[1..]);
      LowDigit(bytes[0] as nat, LittleEndian(bytes[1..]));
      assert bytes == [bytes[0]] + bytes[1..];
    }
  }
}
