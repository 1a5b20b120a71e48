/**
 The history of a document that administrators edit and cold starts seed: the patches that
 landed, in order. A seed fills only keys it read as absent, in an earlier call than the one
 that writes them; what a key holds in the end depends on what landed inside such windows.
 */
module Histories {

  /** A seed remembers how many patches had landed when it read the document. */
  datatype Origin = Admin | Seed(readAt: nat)

  /** One landed patch and the call that landed it. */
  datatype Entry<K, V> = Entry(patch: map<K, V>, origin: Origin, call: nat)

  /** The patches one after the other on an empty document. */
  function MergeAll<K, V>(log: seq<Entry<K, V>>): map<K, V> {
    if log == [] then map[] else MergeAll(log[..|log| - 1]) + log[|log| - 1].patch
  }

  lemma MergeAllSnoc<K, V>(log: seq<Entry<K, V>>, e: Entry<K, V>)
    ensures MergeAll(log + [e]) == MergeAll(log) + e.patch
  {
    assert (log + [e])[..|log|] == log;
  }

  // ---- per key ------------------------------------------------------------------------

  predicate Mentions<K(==), V>(log: seq<Entry<K, V>>, k: K) { exists i :: 0 <= i < |log| && k in log[i].patch }

  function LastMention<K(==), V>(log: seq<Entry<K, V>>, k: K): (i: nat)
    requires Mentions(log, k)
    ensures i < |log| && k in log[i].patch && forall j :: i < j < |log| ==> k !in log[j].patch
    decreases |log|
  {
    var n := |log| - 1;
    if k in log[n].patch then n
    else
      assert Mentions(log[..n], k) by {
        var j :| 0 <= j < |log| && k in log[j].patch;
        assert log[..n][j] == log[j];
      }
      LastMention(log[..n], k)
  }

  /** Each key holds the last patch that mentions it; a key no patch mentions is absent. */
  lemma {:induction false} LastMentionWins<K, V>(log: seq<Entry<K, V>>, k: K)
    ensures k in MergeAll(log) <==> Mentions(log, k)
    ensures Mentions(log, k) ==> MergeAll(log)[k] == log[LastMention(log, k)].patch[k]
    decreases |log|
  {
    if log != [] {
      var n := |log| - 1;
      LastMentionWins(log[..n], k);
      assert forall i :: 0 <= i < n ==> log[..n][i] == log[i];
      if k !in log[n].patch {
        assert Mentions(log[..n], k) <==> Mentions(log, k);
      }
    }
  }

  // ---- seeds ------------------------------------------------------------------------------

  /** What a pending or landed seed knew: at its read no landed patch mentioned its keys. */
  ghost predicate SeedReadIsHonest<K(!new), V>(log: seq<Entry<K, V>>, keys: set<K>, origin: Origin) {
    origin.Seed? ==> origin.readAt <= |log| && forall k, i :: k in keys && 0 <= i < origin.readAt ==> k !in log[i].patch
  }

  lemma HonestyLasts<K(!new), V>(log: seq<Entry<K, V>>, more: seq<Entry<K, V>>, keys: set<K>, origin: Origin)
    requires SeedReadIsHonest(log, keys, origin)
    ensures SeedReadIsHonest(log + more, keys, origin)
  {
  }

  /** Reading now that no key is there yet is honest. */
  lemma ReadingIsHonest<K(!new), V>(log: seq<Entry<K, V>>, keys: set<K>)
    requires forall k :: k in keys ==> k !in MergeAll(log)
    ensures SeedReadIsHonest(log, keys, Seed(|log|))
  {
    forall k, i | k in keys && 0 <= i < |log| ensures k !in log[i].patch {
      LastMentionWins(log, k);
    }
  }

  /** Every landed seed had read honestly, before it landed. */
  ghost predicate HonestLog<K(!new), V>(log: seq<Entry<K, V>>) {
    && (forall i, j, k :: 0 <= i < j < |log| && log[j].origin.Seed? && k in log[j].patch && k in log[i].patch ==>
          log[j].origin.readAt <= i)
    && (forall j :: 0 <= j < |log| && log[j].origin.Seed? ==> log[j].origin.readAt <= j)
  }

  lemma HonestLogGrows<K(!new), V>(log: seq<Entry<K, V>>, e: Entry<K, V>)
    requires HonestLog(log) && SeedReadIsHonest(log, e.patch.Keys, e.origin)
    ensures HonestLog(log + [e])
  {
    var more := log + [e];
    forall i, j, k | 0 <= i < j < |more| && more[j].origin.Seed? && k in more[j].patch && k in more[i].patch
      ensures more[j].origin.readAt <= i
    {
      assert more[i] == log[i];
      if j < |log| {
        assert more[j] == log[j];
      } else {
        assert k in e.patch.Keys;
      }
    }
  }

  predicate Edited<K(==), V>(log: seq<Entry<K, V>>, k: K) {
    exists i :: 0 <= i < |log| && k in log[i].patch && log[i].origin.Admin?
  }

  /** `e` is the last edit of the key. */
  ghost predicate IsLastEdit<K, V>(log: seq<Entry<K, V>>, k: K, e: nat) {
    && e < |log| && log[e].origin.Admin? && k in log[e].patch
    && forall j :: e < j < |log| && log[j].origin.Admin? ==> k !in log[j].patch
  }

  /** `e` landed inside the window between the read and the put of the seed at `j`. */
  predicate Inside<K, V>(log: seq<Entry<K, V>>, e: nat, j: nat)
    requires j < |log|
  {
    log[j].origin.Seed? && log[j].origin.readAt <= e < j
  }

  /** The last edit stands exactly when it landed inside no window of a seed of its key. */
  lemma LastEditStandsIff<K(!new), V>(log: seq<Entry<K, V>>, k: K, e: nat)
    requires HonestLog(log) && IsLastEdit(log, k, e)
    ensures Mentions(log, k)
    ensures LastMention(log, k) == e <==> forall j :: 0 <= j < |log| && Inside(log, e, j) ==> k !in log[j].patch
  {
    assert Mentions(log, k);
    var last := LastMention(log, k);
    assert last != e ==> Inside(log, e, last);
  }

  /** `first` is the first patch that mentions the key. */
  ghost predicate IsFirstMention<K, V>(log: seq<Entry<K, V>>, k: K, first: nat) {
    first < |log| && k in log[first].patch && forall i :: 0 <= i < first ==> k !in log[i].patch
  }

  /** A key never edited holds its first seed exactly when that landed inside no window of another seed of the key. */
  lemma FirstSeedStandsIff<K(!new), V>(log: seq<Entry<K, V>>, k: K, first: nat)
    requires HonestLog(log) && IsFirstMention(log, k, first) && !Edited(log, k)
    ensures Mentions(log, k) && log[first].origin.Seed?
    ensures LastMention(log, k) == first <==> forall j :: 0 <= j < |log| && Inside(log, first, j) ==> k !in log[j].patch
  {
    assert Mentions(log, k);
    var last := LastMention(log, k);
    assert log[last].origin.Seed?;
    assert last != first ==> Inside(log, first, last);
  }
}
