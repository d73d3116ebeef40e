/** Identifiers, time and the small wrappers shared by every component. */
module Types {

  datatype Option<+T> = None | Some(value: T)

  /** Module identifiers are bytes; 0 is never a module. */
  type ModuleId = i: nat | i < 256
  const INVALID_MODULE_ID: ModuleId := 0

  const TWO32: nat := 0x1_0000_0000
  const TWO64: nat := 0x1_0000_0000_0000_0000

  /** Unsigned 32-bit counters that can wrap. */
  type Word32 = w: nat | w < TWO32

  /** Microseconds, kept below 2^64 as in the 64-bit clock. */
  type TimeUs = t: nat | t < TWO64

  /** Unsigned 64-bit subtraction of two time stamps. */
  function Elapsed(now: TimeUs, since: TimeUs): (r: TimeUs)
    ensures since <= now ==> r == now - since
    ensures (since + r) % TWO64 == now
  {
    if since <= now then now - since else now + TWO64 - since
  }

  /** Conversion to a signed 32-bit integer. */
  function ToInt32(x: int): (r: int)
    ensures -0x8000_0000 <= r < 0x8000_0000
    ensures -0x8000_0000 <= x < 0x8000_0000 ==> r == x
  {
    (x + 0x8000_0000) % TWO32 - 0x8000_0000
  }

  function Min(a: int, b: int): (r: int)
    ensures r <= a && r <= b && (r == a || r == b)
  {
    if a <= b then a else b
  }

  function Max(a: int, b: int): (r: int)
    ensures a <= r && b <= r && (r == a || r == b)
  {
    if a <= b then b else a
  }

  /** The position of the first element with a key, or |s|. */
  function FindBy<T>(s: seq<T>, keyOf: T -> int, key: int): (r: nat)
    ensures r <= |s| && (r < |s| ==> keyOf(s[r]) == key)
    ensures forall k :: 0 <= k < r ==> keyOf(s[k]) != key
  {
    if s == [] || keyOf(s[0]) == key then 0 else
    var r := FindBy(s[1..], keyOf, key);
    assert forall k :: 1 <= k < r + 1 ==> s[k] == s[1..][k - 1];
    r + 1
  }

  lemma SubsetSize<T>(a: set<T>, b: set<T>)
    requires a <= b
    ensures |a| <= |b|
  {
    assert b == a + (b - a);
  }

  /** Some part of a set of a given size. */
  lemma {:induction false} Part<T>(s: set<T>, n: nat) returns (part: set<T>)
    requires n <= |s|
    ensures part <= s && |part| == n
  {
    if n == 0 {
      part := {};
    } else {
      var x :| x in s;
      part := Part(s - {x}, n - 1);
      part := part + {x};
    }
  }
}
