/** The collecting loop of `validate_channels_parallel`. The pool runs one
    probe per channel; the loop takes the finished probes in the order they
    complete. That order is an input here: `order[k]` is the index of the
    channel whose probe completed k-th, and `outcomes[i]` is what the probe
    of channel `i` produced. */
module Validator {
  import opened Channels
  import opened Probe

  /** What `future.result()` gives: the probe's verdict, or the exception
      it re-raises. */
  datatype Completion = Returned(verdict: Verdict) | Raised(error: string)

  /** One element of `validation_results`. */
  datatype Entry = Entry(channel: string, url: string, valid: bool, message: string)

  predicate Accepted(outcome: Completion) {
    outcome.Returned? && outcome.verdict.valid
  }

  /** The entry recorded for channel `c` whose probe completed with
      `outcome`. */
  function EntryFor(c: Channel, outcome: Completion): (e: Entry)
    ensures e.channel == c.name && e.url == c.url
    ensures e.valid <==> Accepted(outcome)
    ensures outcome.Raised? ==> e.message == "验证异常: " + outcome.error
    ensures outcome.Returned? ==> e.message == Message(outcome.verdict.reason)
  {
    match outcome
    case Returned(v) => Entry(c.name, c.url, v.valid, Message(v.reason))
    case Raised(error) => Entry(c.name, c.url, false, "验证异常: " + error)
  }

  /** The indices 0, 1, ..., n - 1. */
  function Indices(n: nat): (r: seq<nat>)
    ensures |r| == n
    ensures forall k | 0 <= k < n :: r[k] == k
  {
    seq(n, k requires 0 <= k => k as nat)
  }

  predicate InRange(order: seq<nat>, n: nat) {
    forall k | 0 <= k < |order| :: order[k] < n
  }

  /** `order` lists every index below `n` exactly once. */
  predicate IsPermutation(order: seq<nat>, n: nat) {
    multiset(order) == multiset(Indices(n))
  }

  lemma PermutationInRange(order: seq<nat>, n: nat)
    requires IsPermutation(order, n)
    ensures |order| == n && InRange(order, n)
  {
    assert |multiset(order)| == |multiset(Indices(n))|;
    forall k | 0 <= k < |order| ensures order[k] < n {
      assert order[k] in multiset(order);
      assert order[k] in Indices(n);
    }
  }

  /** `validation_results` after the probes listed in `order` have been
      collected. */
  function Entries(channels: seq<Channel>, outcomes: seq<Completion>, order: seq<nat>): seq<Entry>
    requires |outcomes| == |channels| && InRange(order, |channels|)
    decreases |order|
  {
    if order == [] then []
    else
      var prefix, last := order[..|order| - 1], order[|order| - 1];
      Entries(channels, outcomes, prefix) + [EntryFor(channels[last], outcomes[last])]
  }

  /** `valid_channels` after the probes listed in `order` have been
      collected. */
  function ValidChannels(channels: seq<Channel>, outcomes: seq<Completion>, order: seq<nat>): seq<Channel>
    requires |outcomes| == |channels| && InRange(order, |channels|)
    decreases |order|
  {
    if order == [] then []
    else
      var prefix, last := order[..|order| - 1], order[|order| - 1];
      if Accepted(outcomes[last]) then ValidChannels(channels, outcomes, prefix) + [channels[last]]
      else ValidChannels(channels, outcomes, prefix)
  }

  /** The collecting loop: for each completed probe, an entry in
      `validation_results`, and the channel in `valid_channels` when it was
      accepted. */
  method CollectResults(channels: seq<Channel>, outcomes: seq<Completion>, order: seq<nat>)
    returns (validChannels: seq<Channel>, validationResults: seq<Entry>)
    requires |outcomes| == |channels|
    requires IsPermutation(order, |channels|)
    ensures InRange(order, |channels|)
    ensures validChannels == ValidChannels(channels, outcomes, order)
    ensures validationResults == Entries(channels, outcomes, order)
  {
    PermutationInRange(order, |channels|);
    validChannels := [];
    validationResults := [];
    for i := 0 to |order|
      invariant validChannels == ValidChannels(channels, outcomes, order[..i])
      invariant validationResults == Entries(channels, outcomes, order[..i])
    {
      assert order[..i + 1][..i] == order[..i];
      var channel := channels[order[i]];
      match outcomes[order[i]]
      case Returned(verdict) =>
        if verdict.valid {
          validChannels := validChannels + [channel];
        }
        validationResults := validationResults + [Entry(channel.name, channel.url, verdict.valid, Message(verdict.reason))];
      case Raised(error) =>
        validationResults := validationResults + [Entry(channel.name, channel.url, false, "验证异常: " + error)];
    }
    assert order[..|order|] == order;
  }

  // ------------------------------------------------------------ properties

  /** The k-th entry is about the channel whose probe completed k-th, and
      there is one entry per completed probe, the failing ones included. */
  lemma {:induction false} EntriesShape(channels: seq<Channel>, outcomes: seq<Completion>, order: seq<nat>)
    requires |outcomes| == |channels| && InRange(order, |channels|)
    ensures |Entries(channels, outcomes, order)| == |order|
    ensures forall k | 0 <= k < |order| ::
              Entries(channels, outcomes, order)[k] == EntryFor(channels[order[k]], outcomes[order[k]])
    decreases |order|
  {
    if order != [] {
      EntriesShape(channels, outcomes, order[..|order| - 1]);
    }
  }

  /** The channels in completion order. */
  function Completed(channels: seq<Channel>, order: seq<nat>): (r: seq<Channel>)
    requires InRange(order, |channels|)
    ensures |r| == |order| && forall k | 0 <= k < |order| :: r[k] == channels[order[k]]
  {
    seq(|order|, k requires 0 <= k < |order| => channels[order[k]])
  }

  /** Number of entries marked valid. */
  function CountValid(entries: seq<Entry>): nat
    decreases |entries|
  {
    if entries == [] then 0
    else CountValid(entries[..|entries| - 1]) + if entries[|entries| - 1].valid then 1 else 0
  }

  /** There are as many accepted channels as entries marked valid. */
  lemma {:induction false} ValidCount(channels: seq<Channel>, outcomes: seq<Completion>, order: seq<nat>)
    requires |outcomes| == |channels| && InRange(order, |channels|)
    ensures |ValidChannels(channels, outcomes, order)| == CountValid(Entries(channels, outcomes, order))
    decreases |order|
  {
    if order != [] {
      var prefix := order[..|order| - 1];
      ValidCount(channels, outcomes, prefix);
      var es := Entries(channels, outcomes, order);
      assert es[..|es| - 1] == Entries(channels, outcomes, prefix);
    }
  }

  /** `valid_channels` follows completion order. */
  lemma {:induction false} ValidInCompletionOrder(channels: seq<Channel>, outcomes: seq<Completion>, order: seq<nat>)
    requires |outcomes| == |channels| && InRange(order, |channels|)
    ensures IsSubseq(ValidChannels(channels, outcomes, order), Completed(channels, order))
    decreases |order|
  {
    if order != [] {
      var prefix := order[..|order| - 1];
      ValidInCompletionOrder(channels, outcomes, prefix);
      assert Completed(channels, order)[..|order| - 1] == Completed(channels, prefix);
    }
  }

  /** The indices of `order` whose probe was accepted, in completion order. */
  function AcceptedOrder(outcomes: seq<Completion>, order: seq<nat>): (ao: seq<nat>)
    requires InRange(order, |outcomes|)
    ensures |ao| <= |order| && InRange(ao, |outcomes|)
    decreases |order|
  {
    if order == [] then []
    else
      var prefix, last := order[..|order| - 1], order[|order| - 1];
      if Accepted(outcomes[last]) then AcceptedOrder(outcomes, prefix) + [last]
      else AcceptedOrder(outcomes, prefix)
  }

  /** The accepted indices are the indices of `order`, kept in their order,
      whose probe was accepted; every accepted index of `order` is among
      them. */
  lemma {:induction false} AcceptedOrderSpec(outcomes: seq<Completion>, order: seq<nat>)
    requires InRange(order, |outcomes|)
    ensures IsSubseq(AcceptedOrder(outcomes, order), order)
    ensures forall k | 0 <= k < |AcceptedOrder(outcomes, order)| :: Accepted(outcomes[AcceptedOrder(outcomes, order)[k]])
    ensures forall k | 0 <= k < |order| && Accepted(outcomes[order[k]]) :: order[k] in AcceptedOrder(outcomes, order)
    decreases |order|
  {
    if order != [] {
      var prefix := order[..|order| - 1];
      AcceptedOrderSpec(outcomes, prefix);
      assert forall k | 0 <= k < |prefix| :: prefix[k] == order[k];
    }
  }

  lemma CompletedSnoc(channels: seq<Channel>, o: seq<nat>, x: nat)
    requires InRange(o, |channels|) && x < |channels|
    ensures InRange(o + [x], |channels|)
    ensures Completed(channels, o + [x]) == Completed(channels, o) + [channels[x]]
  {
    assert forall k | 0 <= k < |o| :: (o + [x])[k] == o[k];
  }

  /** `valid_channels` is exactly the channels of the accepted probes, taken
      in completion order. The comparison is by index, so it fixes the
      order even when the input repeats a channel. */
  lemma {:induction false} ValidIsAcceptedCompleted(channels: seq<Channel>, outcomes: seq<Completion>, order: seq<nat>)
    requires |outcomes| == |channels| && InRange(order, |channels|)
    ensures ValidChannels(channels, outcomes, order) == Completed(channels, AcceptedOrder(outcomes, order))
    decreases |order|
  {
    if order != [] {
      var prefix, last := order[..|order| - 1], order[|order| - 1];
      ValidIsAcceptedCompleted(channels, outcomes, prefix);
      if Accepted(outcomes[last]) {
        CompletedSnoc(channels, AcceptedOrder(outcomes, prefix), last);
      }
    }
  }

  /** A channel is in `valid_channels` exactly when some completed probe of
      it was accepted. */
  lemma {:induction false} ValidMembers(channels: seq<Channel>, outcomes: seq<Completion>, order: seq<nat>)
    requires |outcomes| == |channels| && InRange(order, |channels|)
    ensures forall c :: c in ValidChannels(channels, outcomes, order) <==>
              exists k | 0 <= k < |order| :: Accepted(outcomes[order[k]]) && channels[order[k]] == c
    decreases |order|
  {
    if order != [] {
      var prefix, last := order[..|order| - 1], order[|order| - 1];
      ValidMembers(channels, outcomes, prefix);
      var v := ValidChannels(channels, outcomes, order);
      var vp := ValidChannels(channels, outcomes, prefix);
      assert forall k | 0 <= k < |prefix| :: prefix[k] == order[k];
      forall c ensures c in v <==> exists k | 0 <= k < |order| :: Accepted(outcomes[order[k]]) && channels[order[k]] == c {
        if c in vp {
          var k :| 0 <= k < |prefix| && Accepted(outcomes[prefix[k]]) && channels[prefix[k]] == c;
          assert Accepted(outcomes[order[k]]) && channels[order[k]] == c;
        } else if c in v {
          assert Accepted(outcomes[order[|order| - 1]]) && channels[order[|order| - 1]] == c;
        }
        if exists k | 0 <= k < |order| :: Accepted(outcomes[order[k]]) && channels[order[k]] == c {
          var k :| 0 <= k < |order| && Accepted(outcomes[order[k]]) && channels[order[k]] == c;
          if k < |prefix| {
            assert Accepted(outcomes[prefix[k]]) && channels[prefix[k]] == c;
            assert c in vp;
          }
        }
      }
    }
  }

  lemma {:induction false} EntriesConcat(channels: seq<Channel>, outcomes: seq<Completion>, a: seq<nat>, b: seq<nat>)
    requires |outcomes| == |channels| && InRange(a, |channels|) && InRange(b, |channels|)
    ensures InRange(a + b, |channels|)
    ensures Entries(channels, outcomes, a + b) ==
            Entries(channels, outcomes, a) + Entries(channels, outcomes, b)
    ensures ValidChannels(channels, outcomes, a + b) ==
            ValidChannels(channels, outcomes, a) + ValidChannels(channels, outcomes, b)
    decreases |b|
  {
    assert InRange(a + b, |channels|);
    if b == [] {
      assert a + b == a;
    } else {
      var prefix := b[..|b| - 1];
      EntriesConcat(channels, outcomes, a, prefix);
      assert (a + b)[..|a + b| - 1] == a + prefix;
    }
  }

  /** Finds the last element of `o1` in `o2` and splits `o2` around it. */
  lemma MatchLast(o1: seq<nat>, o2: seq<nat>) returns (a: seq<nat>, b: seq<nat>)
    requires o1 != [] && multiset(o1) == multiset(o2)
    ensures o2 == a + [o1[|o1| - 1]] + b
    ensures multiset(o1[..|o1| - 1]) == multiset(a + b)
  {
    var p1, x := o1[..|o1| - 1], o1[|o1| - 1];
    assert o1 == p1 + [x];
    assert x in multiset(o2);
    var p :| 0 <= p < |o2| && o2[p] == x;
    a, b := o2[..p], o2[p + 1..];
    assert o2 == a + [x] + b;
    assert multiset(p1) == multiset(o1) - multiset{x};
    assert multiset(a + b) == multiset(a) + multiset(b);
  }

  lemma EntriesSingle(channels: seq<Channel>, outcomes: seq<Completion>, x: nat)
    requires |outcomes| == |channels| && x < |channels|
    ensures InRange([x], |channels|)
    ensures Entries(channels, outcomes, [x]) == [EntryFor(channels[x], outcomes[x])]
    ensures ValidChannels(channels, outcomes, [x]) == if Accepted(outcomes[x]) then [channels[x]] else []
  {
    assert InRange([x], |channels|);
    assert [x][..0] == [];
  }

  lemma MultisetMiddle<T>(a: seq<T>, x: seq<T>, b: seq<T>)
    ensures multiset(a + x + b) == multiset(a + b) + multiset(x)
  {
    calc {
      multiset(a + x + b);
      multiset(a) + multiset(x) + multiset(b);
      multiset(a + b) + multiset(x);
    }
  }

  /** Inserting one completed probe anywhere adds its entry, and its channel
      when accepted. */
  lemma EntriesInsert(channels: seq<Channel>, outcomes: seq<Completion>, a: seq<nat>, x: nat, b: seq<nat>)
    requires |outcomes| == |channels| && InRange(a, |channels|) && InRange(b, |channels|) && x < |channels|
    ensures InRange(a + [x] + b, |channels|) && InRange(a + b, |channels|)
    ensures multiset(Entries(channels, outcomes, a + [x] + b)) ==
            multiset(Entries(channels, outcomes, a + b)) + multiset{EntryFor(channels[x], outcomes[x])}
    ensures multiset(ValidChannels(channels, outcomes, a + [x] + b)) ==
            multiset(ValidChannels(channels, outcomes, a + b)) +
            multiset(if Accepted(outcomes[x]) then [channels[x]] else [])
  {
    EntriesSingle(channels, outcomes, x);
    EntriesConcat(channels, outcomes, a, b);
    EntriesConcat(channels, outcomes, a, [x]);
    EntriesConcat(channels, outcomes, a + [x], b);
    MultisetMiddle(Entries(channels, outcomes, a), Entries(channels, outcomes, [x]), Entries(channels, outcomes, b));
    MultisetMiddle(ValidChannels(channels, outcomes, a), ValidChannels(channels, outcomes, [x]),
                   ValidChannels(channels, outcomes, b));
  }

  /** Which entries are recorded, and which channels are accepted, does not
      depend on the order in which the probes complete; only their order
      in the two lists does. */
  lemma {:induction false} OrderIndependent(channels: seq<Channel>, outcomes: seq<Completion>, o1: seq<nat>, o2: seq<nat>)
    requires |outcomes| == |channels| && InRange(o1, |channels|) && InRange(o2, |channels|)
    requires multiset(o1) == multiset(o2)
    ensures multiset(Entries(channels, outcomes, o1)) == multiset(Entries(channels, outcomes, o2))
    ensures multiset(ValidChannels(channels, outcomes, o1)) == multiset(ValidChannels(channels, outcomes, o2))
    decreases |o1|
  {
    if o1 == [] {
      assert |multiset(o2)| == 0;
      assert o2 == [];
    } else {
      var p1, x := o1[..|o1| - 1], o1[|o1| - 1];
      var a, b := MatchLast(o1, o2);
      assert InRange(a, |channels|) && InRange(b, |channels|) by {
        assert forall k | 0 <= k < |a| :: a[k] == o2[k];
        assert forall k | 0 <= k < |b| :: b[k] == o2[|a| + 1 + k];
      }
      EntriesInsert(channels, outcomes, a, x, b);
      OrderIndependent(channels, outcomes, p1, a + b);
    }
  }

  /** Whatever the completion order, `validation_results` holds exactly one
      entry per submitted channel, and `valid_channels` holds exactly the
      accepted ones, each once: the same multisets as in input order. */
  lemma OneEntryPerChannel(channels: seq<Channel>, outcomes: seq<Completion>, order: seq<nat>)
    requires |outcomes| == |channels|
    requires IsPermutation(order, |channels|)
    ensures InRange(order, |channels|) && InRange(Indices(|channels|), |channels|)
    ensures multiset(Entries(channels, outcomes, order)) ==
            multiset(Entries(channels, outcomes, Indices(|channels|)))
    ensures multiset(ValidChannels(channels, outcomes, order)) ==
            multiset(ValidChannels(channels, outcomes, Indices(|channels|)))
  {
    var n := |channels|;
    PermutationInRange(order, n);
    assert InRange(Indices(n), n);
    OrderIndependent(channels, outcomes, order, Indices(n));
  }

  /** In input order there is one entry per channel, the k-th about the
      k-th channel. */
  lemma EntriesInInputOrder(channels: seq<Channel>, outcomes: seq<Completion>)
    requires |outcomes| == |channels|
    ensures InRange(Indices(|channels|), |channels|)
    ensures |Entries(channels, outcomes, Indices(|channels|))| == |channels|
    ensures forall k | 0 <= k < |channels| ::
              Entries(channels, outcomes, Indices(|channels|))[k] == EntryFor(channels[k], outcomes[k])
  {
    var ix := Indices(|channels|);
    assert InRange(ix, |channels|);
    EntriesShape(channels, outcomes, ix);
  }

  /** In input order, the accepted channels are those whose probe accepted
      them. */
  lemma {:induction false} InputOrderValid(channels: seq<Channel>, outcomes: seq<Completion>, n: nat)
    requires |outcomes| == |channels| && n <= |channels|
    ensures InRange(Indices(n), |channels|)
    ensures forall c :: c in ValidChannels(channels, outcomes, Indices(n)) <==>
              exists i | 0 <= i < n :: Accepted(outcomes[i]) && channels[i] == c
    decreases n
  {
    if n > 0 {
      InputOrderValid(channels, outcomes, n - 1);
      assert Indices(n)[..n - 1] == Indices(n - 1);
    }
  }
}
