/** The channel record every stage of the pipeline passes along, and the
    order relation between channel lists that the filtering stages keep. */
module Channels {

  /** One playlist entry: the `#EXTINF` line as read, the display name taken
      from it, the stream URL, and the playlist it came from. */
  datatype Channel = Channel(rawExtinf: string, name: string, url: string, source: string)

  /** The URLs of `cs`, in order. */
  function Urls(cs: seq<Channel>): (us: seq<string>)
    ensures |us| == |cs|
    ensures forall k | 0 <= k < |cs| :: us[k] == cs[k].url
    decreases |cs|
  {
    if cs == [] then [] else Urls(cs[..|cs| - 1]) + [cs[|cs| - 1].url]
  }

  /** `a` is `b` with some elements left out and the rest in their order. */
  ghost predicate IsSubseq<T>(a: seq<T>, b: seq<T>)
    decreases |b|
  {
    if a == [] then true
    else if b == [] then false
    else
      || (a[|a| - 1] == b[|b| - 1] && IsSubseq(a[..|a| - 1], b[..|b| - 1]))
      || IsSubseq(a, b[..|b| - 1])
  }

  /** Everything in a subsequence is in the sequence. */
  lemma {:induction false} SubseqMembers<T>(a: seq<T>, b: seq<T>)
    requires IsSubseq(a, b)
    ensures forall x | x in a :: x in b
    decreases |b|
  {
    if a != [] {
      var b' := b[..|b| - 1];
      if a[|a| - 1] == b[|b| - 1] && IsSubseq(a[..|a| - 1], b') {
        SubseqMembers(a[..|a| - 1], b');
        assert a == a[..|a| - 1] + [b[|b| - 1]];
        assert b == b' + [b[|b| - 1]];
      } else {
        SubseqMembers(a, b');
        assert b == b' + [b[|b| - 1]];
      }
    }
  }
}
