/**
 * `byteArrayToString`: the text held in a fixed, zero-terminated (or
 * completely filled) byte buffer of the captured record.
 */
module CStrings {
  import opened Bytes

  /** The index of the first zero byte of `b`, or `|b|` when `b` has none. */
  function FirstZero(b: seq<byte>): (k: nat)
    ensures k <= |b|
    ensures forall j :: 0 <= j < k ==> b[j] != 0
    ensures k < |b| ==> b[k] == 0
  {
    if |b| == 0 || b[0] == 0 then 0 else 1 + FirstZero(b[1..])
  }

  /**
   * The text a buffer holds: everything before its first zero byte, or the
   * whole buffer when no zero byte terminates it.
   */
  function CString(b: seq<byte>): (s: seq<byte>)
    ensures s <= b
    ensures 0 !in s
    ensures |s| == |b| || b[|s|] == 0
  {
    b[..FirstZero(b)]
  }

  /**
   * The three properties CString ensures determine its result: any prefix
   * of `b` without a zero byte that stops at the end of `b` or at a zero
   * byte is CString(b).
   */
  lemma CStringUnique(b: seq<byte>, s: seq<byte>)
    requires s <= b && 0 !in s
    requires |s| == |b| || b[|s|] == 0
    ensures s == CString(b)
  {
    var k := FirstZero(b);
    if |s| < k {
      assert false;
    } else if |s| > k {
      assert false;
    }
  }

  /** A buffer whose first zero byte is at `k` holds exactly `b[..k]`. */
  lemma CStringAtFirstZero(b: seq<byte>, k: nat)
    requires k < |b| && b[k] == 0
    requires forall j :: 0 <= j < k ==> b[j] != 0
    ensures CString(b) == b[..k]
  {
    CStringUnique(b, b[..k]);
  }

  /** A buffer without a zero byte holds all of itself. */
  lemma CStringWhole(b: seq<byte>)
    requires 0 !in b
    ensures CString(b) == b
  {
    CStringUnique(b, b);
  }

  /**
   * `byteArrayToString`: scan for the first zero byte, stopping there, and
   * return the bytes before it (all of `b` when the scan finds none).
   */
  method ByteArrayToString(b: seq<byte>) returns (s: seq<byte>)
    ensures s == CString(b)
  {
    var n := -1;
    for i := 0 to |b|
      invariant n == -1
      invariant forall j :: 0 <= j < i ==> b[j] != 0
    {
      if b[i] == 0 {
        n := i;
        break;
      }
    }
    if n == -1 {
      n := |b|;
    }
    s := b[..n];
  }
}
