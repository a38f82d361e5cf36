// Small notions several parts of the model share.

module Lists {
  type Byte = x: int | 0 <= x < 256

  /** The address that leads nowhere. */
  const NIL: nat := 0

  datatype Option<T> = None | Some(value: T)

  function Zeros(n: nat): (z: seq<Byte>)
    ensures |z| == n
  {
    seq(n, _ => 0)
  }

  /** No address is in the list twice. */
  ghost predicate NoDup(s: seq<nat>) {
    forall i, j | 0 <= i < j < |s| :: s[i] != s[j]
  }

  ghost function Elements(s: seq<nat>): set<nat> { set b | b in s }
}
