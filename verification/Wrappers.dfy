/** What several modules need and the language does not have. */
module Wrappers {

  datatype Option<T> = None | Some(value: T)

  /** `buf[at..at + |data|].copy_from_slice(data)` */
  method CopyInto<T>(buf: array<T>, at: nat, data: seq<T>)
    requires at + |data| <= buf.Length
    modifies buf
    ensures buf[..] == old(buf[..at]) + data + old(buf[at + |data|..])
  {
    ghost var front, back := buf[..at], buf[at + |data|..];
    for k := 0 to |data|
      invariant buf[..at] == front
      invariant buf[at + |data|..] == back
      invariant forall i :: 0 <= i < k ==> buf[at + i] == data[i]
    {
      buf[at + k] := data[k];
    }
    assert buf[at..at + |data|] == data;
    assert buf[..] == buf[..at] + buf[at..at + |data|] + buf[at + |data|..];
  }

  /** What a copy into the middle leaves in front of its end and behind any later point. */
  lemma CopiedParts<T>(before: seq<T>, at: nat, data: seq<T>, after: seq<T>, n: nat)
    requires at + |data| <= n <= |before|
    requires after == before[..at] + data + before[at + |data|..]
    ensures |after| == |before|
    ensures after[..at + |data|] == before[..at] + data
    ensures after[n..] == before[n..]
  {
  }
}
