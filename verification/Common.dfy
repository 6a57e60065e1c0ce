/** Small definitions that several modules share. */
module Common {

  datatype Option<T> = None | Some(value: T)

  /** What an interface stands for: a B channel, the D channel, or a NULL PLCI */
  datatype ChannelType = B | D | NullChannel

  /** s without its k-th element */
  function Without<T>(s: seq<T>, k: nat): (r: seq<T>)
    requires k < |s|
    ensures |r| == |s| - 1
  {
    s[..k] + s[k + 1..]
  }

  lemma Associate<T>(a: seq<T>, b: seq<T>, c: seq<T>)
    ensures a + b + c == a + (b + c)
  {
  }

  function Bit(b: bool): nat {
    if b then 1 else 0
  }
}
