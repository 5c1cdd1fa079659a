/**
 * Keeping the present entries of a sequence of optional values, in order.
 * Both the services list (the labels of the checks that fire) and the search
 * (the records that normalise and pass the filters) have this shape.
 */
module Subsequences {
  import opened Wrappers

  /** The values carried by the `Some` entries, in order. */
  function Present<T>(opts: seq<Option<T>>): seq<T> {
    if opts == [] then []
    else
      var last := opts[|opts| - 1];
      Present(opts[..|opts| - 1]) + (if last.Some? then [last.value] else [])
  }

  /** Keeping the present values never lengthens the sequence. */
  lemma {:induction false} PresentLength<T>(opts: seq<Option<T>>)
    ensures |Present(opts)| <= |opts|
    decreases |opts|
  {
    if opts != [] {
      PresentLength(opts[..|opts| - 1]);
    }
  }

  ghost predicate StrictlyIncreasing(slots: seq<nat>) {
    forall k, l :: 0 <= k < l < |slots| ==> slots[k] < slots[l]
  }

  /** The positions of the `Some` entries, in order. */
  ghost function PresentSlots<T>(opts: seq<Option<T>>): seq<nat> {
    if opts == [] then []
    else PresentSlots(opts[..|opts| - 1]) + (if opts[|opts| - 1].Some? then [|opts| - 1] else [])
  }

  /** The `k`-th present value is carried by the entry at the `k`-th slot. */
  lemma {:induction false} PresentSlotsSound<T>(opts: seq<Option<T>>)
    ensures |PresentSlots(opts)| == |Present(opts)|
    ensures forall k :: 0 <= k < |PresentSlots(opts)| ==>
              && PresentSlots(opts)[k] < |opts|
              && opts[PresentSlots(opts)[k]].Some?
              && opts[PresentSlots(opts)[k]].value == Present(opts)[k]
    decreases |opts|
  {
    if opts != [] {
      var n := |opts|;
      var init := opts[..n - 1];
      PresentSlotsSound(init);
      var prev := PresentSlots(init);
      var before := Present(init);
      forall k | 0 <= k < |PresentSlots(opts)|
        ensures && PresentSlots(opts)[k] < n
                && opts[PresentSlots(opts)[k]].Some?
                && opts[PresentSlots(opts)[k]].value == Present(opts)[k]
      {
        if k < |prev| {
          assert PresentSlots(opts)[k] == prev[k];
          assert Present(opts)[k] == before[k];
          assert opts[prev[k]] == init[prev[k]];
        }
      }
    }
  }

  lemma {:induction false} PresentSlotsIncreasing<T>(opts: seq<Option<T>>)
    ensures StrictlyIncreasing(PresentSlots(opts))
    decreases |opts|
  {
    if opts != [] {
      var n := |opts|;
      var init := opts[..n - 1];
      PresentSlotsIncreasing(init);
      PresentSlotsSound(init);
      var prev := PresentSlots(init);
      var slots := PresentSlots(opts);
      forall k, l | 0 <= k < l < |slots| ensures slots[k] < slots[l] {
        if l < |prev| {
          assert slots[k] == prev[k] && slots[l] == prev[l];
        } else {
          assert slots[k] == prev[k] < n - 1;
        }
      }
    }
  }

  /** Every `Some` entry has its position among the slots. */
  lemma {:induction false} PresentSlotsComplete<T>(opts: seq<Option<T>>)
    ensures forall j :: 0 <= j < |opts| && opts[j].Some? ==> j in PresentSlots(opts)
    decreases |opts|
  {
    if opts != [] {
      var n := |opts|;
      var init := opts[..n - 1];
      PresentSlotsComplete(init);
      forall j | 0 <= j < n && opts[j].Some? ensures j in PresentSlots(opts) {
        if j < n - 1 {
          assert init[j] == opts[j];
          assert j in PresentSlots(init);
        } else {
          assert PresentSlots(opts) == PresentSlots(init) + [j];
        }
      }
    }
  }

  /**
   * The present values form a subsequence of the entries: each comes from
   * one `Some` entry, in entry order, and every `Some` entry contributes.
   */
  lemma PresentOrigins<T>(opts: seq<Option<T>>) returns (idx: seq<nat>)
    ensures |idx| == |Present(opts)|
    ensures StrictlyIncreasing(idx)
    ensures forall k :: 0 <= k < |idx| ==> idx[k] < |opts| && opts[idx[k]].Some? && opts[idx[k]].value == Present(opts)[k]
    ensures forall j :: 0 <= j < |opts| && opts[j].Some? ==> j in idx
  {
    idx := PresentSlots(opts);
    PresentSlotsSound(opts);
    PresentSlotsIncreasing(opts);
    PresentSlotsComplete(opts);
  }

  /** One more entry extends the present values by its value, if it has one. */
  lemma PresentStep<T>(opts: seq<Option<T>>, k: nat)
    requires k < |opts|
    ensures Present(opts[..k + 1]) == Present(opts[..k]) + (if opts[k].Some? then [opts[k].value] else [])
  {
    assert opts[..k + 1][..k] == opts[..k];
  }

  lemma {:induction false} PresentConcat<T>(a: seq<Option<T>>, b: seq<Option<T>>)
    ensures Present(a + b) == Present(a) + Present(b)
    decreases |b|
  {
    if b == [] {
      assert a + b == a;
    } else {
      var init := b[..|b| - 1];
      assert (a + b)[..|a + b| - 1] == a + init;
      PresentConcat(a, init);
    }
  }

  /** When every entry is present, nothing is dropped. */
  lemma {:induction false} PresentAllSome<T>(opts: seq<Option<T>>)
    requires forall j :: 0 <= j < |opts| ==> opts[j].Some?
    ensures |Present(opts)| == |opts|
    ensures forall j :: 0 <= j < |opts| ==> Present(opts)[j] == opts[j].value
    decreases |opts|
  {
    if opts != [] {
      var n := |opts|;
      var init := opts[..n - 1];
      PresentAllSome(init);
      assert Present(opts) == Present(init) + [opts[n - 1].value];
      forall j | 0 <= j < n ensures Present(opts)[j] == opts[j].value {
        if j < n - 1 {
          assert Present(opts)[j] == Present(init)[j];
          assert init[j] == opts[j];
        }
      }
    }
  }

  /** Strictly increasing positions below `n` number at most `n`. */
  lemma {:induction false} SlotsBounded(slots: seq<nat>, n: nat)
    requires StrictlyIncreasing(slots)
    requires forall k :: 0 <= k < |slots| ==> slots[k] < n
    ensures |slots| <= n
    decreases n
  {
    if slots != [] {
      var last := slots[|slots| - 1];
      SlotsBounded(slots[..|slots| - 1], last);
    }
  }
}
