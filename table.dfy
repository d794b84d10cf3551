/** A phrase-to-handler table with the behaviour of a Python `dict` whose keys are
    strings: lookup by key, insertion order kept, assigning to a present key
    overwrites its value in place, assigning to a new key appends it. */
module CommandTable {
  import opened Wrappers
  import opened Handlers

  type Entry = (string, Handler)
  type Table = seq<Entry>

  function Keys(t: Table): seq<string>
  {
    seq(|t|, i requires 0 <= i < |t| => t[i].0)
  }

  /** The phrases of two runs of entries, one after the other. */
  lemma KeysAppend(a: Table, b: Table)
    ensures Keys(a + b) == Keys(a) + Keys(b)
  {
  }

  /** No phrase occurs twice: what every `dict` satisfies. */
  ghost predicate UniqueKeys(t: Table)
  {
    forall i, j :: 0 <= i < j < |t| ==> t[i].0 != t[j].0
  }

  /** The position of the first entry whose phrase is `k`. */
  function IndexOf(t: Table, k: string): (r: Option<nat>)
    ensures r.Some? ==> r.value < |t| && t[r.value].0 == k
    ensures r.Some? ==> forall j :: 0 <= j < r.value ==> t[j].0 != k
    ensures r.None? <==> k !in Keys(t)
  {
    if |t| == 0 then None
    else if t[0].0 == k then assert Keys(t)[0] == k; Some(0)
    else
      assert forall j :: 1 <= j < |t| ==> Keys(t)[j] == Keys(t[1..])[j - 1];
      match IndexOf(t[1..], k)
      case None => None
      case Some(i) => assert Keys(t)[i + 1] == k; Some(i + 1)
  }

  /** `t.get(k)`: the handler bound to `k`, if any. */
  function Lookup(t: Table, k: string): Option<Handler>
  {
    match IndexOf(t, k)
    case None => None
    case Some(i) => Some(t[i].1)
  }

  /** `t[k] = v`. */
  function Put(t: Table, k: string, v: Handler): (r: Table)
    ensures Keys(r) == if k in Keys(t) then Keys(t) else Keys(t) + [k]
    ensures Lookup(r, k) == Some(v)
    ensures forall k' :: k' != k ==> Lookup(r, k') == Lookup(t, k')
    ensures UniqueKeys(t) ==> UniqueKeys(r)
  {
    match IndexOf(t, k)
    case Some(i) => OverwriteIndex(t, i, v); t[i := (k, v)]
    case None => AppendIndex(t, k, v); t + [(k, v)]
  }

  /** Overwriting the value of entry `i` leaves every phrase where it was. */
  lemma OverwriteIndex(t: Table, i: nat, v: Handler)
    requires i < |t|
    requires IndexOf(t, t[i].0) == Some(i)
    ensures Keys(t[i := (t[i].0, v)]) == Keys(t)
    ensures forall k' :: IndexOf(t[i := (t[i].0, v)], k') == IndexOf(t, k')
  {
    var r := t[i := (t[i].0, v)];
    assert Keys(r) == Keys(t);
    forall k' ensures IndexOf(r, k') == IndexOf(t, k') {
      SameKeysSameIndex(r, t, k');
    }
  }

  /** Appending a new phrase puts it last and moves no other phrase. */
  lemma AppendIndex(t: Table, k: string, v: Handler)
    requires k !in Keys(t)
    ensures Keys(t + [(k, v)]) == Keys(t) + [k]
    ensures IndexOf(t + [(k, v)], k) == Some(|t|)
    ensures forall k' :: k' != k ==> IndexOf(t + [(k, v)], k') == IndexOf(t, k')
  {
    var r := t + [(k, v)];
    assert Keys(r) == Keys(t) + [k];
    assert forall j :: 0 <= j < |t| ==> Keys(t)[j] == t[j].0;
    IndexOfAt(r, k, |t|);
    forall k' | k' != k ensures IndexOf(r, k') == IndexOf(t, k') {
      match IndexOf(t, k')
      case Some(j) => IndexOfAt(r, k', j);
      case None => assert k' !in Keys(r);
    }
  }

  /** `IndexOf` depends on the phrases alone. */
  lemma SameKeysSameIndex(r: Table, t: Table, k: string)
    requires Keys(r) == Keys(t)
    ensures IndexOf(r, k) == IndexOf(t, k)
  {
    assert |r| == |Keys(r)|;
    assert forall j :: 0 <= j < |t| ==> r[j].0 == Keys(r)[j] == t[j].0;
    match IndexOf(t, k)
    case Some(j) => IndexOfAt(r, k, j);
    case None =>
  }

  /** The phrase of entry `i` of a table with unique phrases looks up entry `i`. */
  lemma LookupAt(t: Table, i: nat)
    requires UniqueKeys(t) && i < |t|
    ensures Lookup(t, t[i].0) == Some(t[i].1)
  {
    IndexOfAt(t, t[i].0, i);
  }

  /** A key is bound exactly when it is one of the table's phrases. */
  lemma LookupDefined(t: Table, k: string)
    ensures Lookup(t, k).Some? <==> k in Keys(t)
  {
  }

  /** Inserting `es` one after another, as a run of assignments or `dict.update` does. */
  function PutAll(t: Table, es: seq<Entry>): (r: Table)
    ensures UniqueKeys(t) ==> UniqueKeys(r)
    ensures |r| >= |t| && Keys(r)[..|t|] == Keys(t)
    decreases |es|
  {
    if es == [] then t
    else
      var n := |es| - 1;
      Put(PutAll(t, es[..n]), es[n].0, es[n].1)
  }

  /** The value of the last entry of `es` with phrase `k`: the one assignment that survives. */
  function LastBinding(es: seq<Entry>, k: string): Option<Handler>
    decreases |es|
  {
    if es == [] then None
    else if es[|es| - 1].0 == k then Some(es[|es| - 1].1)
    else LastBinding(es[..|es| - 1], k)
  }

  /** The phrases of `es` that are neither in `t` nor earlier in `es`, in order of first
      appearance: the keys that inserting `es` into `t` appends. */
  function FreshKeys(t: Table, es: seq<Entry>): seq<string>
    decreases |es|
  {
    if es == [] then []
    else
      var n := |es| - 1;
      FreshKeys(t, es[..n]) + if es[n].0 in Keys(t) || es[n].0 in Keys(es[..n]) then [] else [es[n].0]
  }

  /** A key has a last binding exactly when it is one of the phrases of `es`. */
  lemma {:induction false} LastBindingDefined(es: seq<Entry>, k: string)
    ensures LastBinding(es, k).Some? <==> k in Keys(es)
    decreases |es|
  {
    if es != [] {
      var n := |es| - 1;
      LastBindingDefined(es[..n], k);
      assert Keys(es) == Keys(es[..n]) + [es[n].0];
    }
  }

  /** In a table with unique phrases the last binding is the only one. */
  lemma {:induction false} LastBindingUnique(es: seq<Entry>, k: string)
    requires UniqueKeys(es)
    ensures LastBinding(es, k) == Lookup(es, k)
    decreases |es|
  {
    if es != [] {
      var n := |es| - 1;
      LastBindingUnique(es[..n], k);
      if es[n].0 == k {
        LookupAt(es, n);
      } else {
        match IndexOf(es, k)
        case None =>
          assert k !in Keys(es[..n]) by {
            assert forall j :: 0 <= j < n ==> Keys(es[..n])[j] == Keys(es)[j];
          }
        case Some(i) =>
          assert IndexOf(es[..n], k) == Some(i) by {
            IndexOfAt(es[..n], k, i);
          }
      }
    }
  }

  /** The first position holding a phrase is what `IndexOf` finds. */
  lemma IndexOfAt(t: Table, k: string, i: nat)
    requires i < |t| && t[i].0 == k
    requires forall j :: 0 <= j < i ==> t[j].0 != k
    ensures IndexOf(t, k) == Some(i)
  {
    assert Keys(t)[i] == k;
  }

  /** After inserting `es` into `t`, a key is bound to its last value in `es`, or
      keeps its old binding when `es` does not mention it. */
  lemma {:induction false} PutAllLookup(t: Table, es: seq<Entry>, k: string)
    ensures Lookup(PutAll(t, es), k) ==
      if LastBinding(es, k).Some? then LastBinding(es, k) else Lookup(t, k)
    decreases |es|
  {
    if es != [] {
      PutAllLookup(t, es[..|es| - 1], k);
    }
  }

  /** Inserting `es` keeps the keys of `t` in their places and appends the new keys of
      `es` in the order they first appear. */
  lemma {:induction false} PutAllKeys(t: Table, es: seq<Entry>)
    ensures Keys(PutAll(t, es)) == Keys(t) + FreshKeys(t, es)
    decreases |es|
  {
    if es != [] {
      var n := |es| - 1;
      var k := es[n].0;
      PutAllKeys(t, es[..n]);
      var r := PutAll(t, es[..n]);
      LookupDefined(r, k);
      PutAllLookup(t, es[..n], k);
      LastBindingDefined(es[..n], k);
      LookupDefined(t, k);
    }
  }

  /** Inserting a sequence with no repeated phrase into an empty table gives that
      sequence back: `dict(pairs)` for distinct keys keeps them as they are. */
  lemma {:induction false} PutAllIntoEmpty(es: seq<Entry>)
    requires UniqueKeys(es)
    ensures PutAll([], es) == es
    decreases |es|
  {
    if es != [] {
      var n := |es| - 1;
      PutAllIntoEmpty(es[..n]);
      assert es[n].0 !in Keys(es[..n]);
      assert es[..n] + [es[n]] == es;
    }
  }

  /** Inserting `a` and then `b` is inserting `a + b`. */
  lemma {:induction false} PutAllAppend(t: Table, a: seq<Entry>, b: seq<Entry>)
    ensures PutAll(t, a + b) == PutAll(PutAll(t, a), b)
    decreases |b|
  {
    if b == [] {
      assert a + b == a;
    } else {
      var n := |b| - 1;
      var ab := a + b;
      assert ab[..|ab| - 1] == a + b[..n];
      assert ab[|ab| - 1] == b[n];
      PutAllLast(t, ab);
      PutAllLast(PutAll(t, a), b);
      PutAllAppend(t, a, b[..n]);
    }
  }

  /** One step of `PutAll`: the last entry is inserted last. */
  lemma PutAllLast(t: Table, es: seq<Entry>)
    requires es != []
    ensures PutAll(t, es) == Put(PutAll(t, es[..|es| - 1]), es[|es| - 1].0, es[|es| - 1].1)
  {
  }

  /** `{**a, **b}`: a fresh dict holding the entries of `a`, then those of `b`. */
  function Merge(a: Table, b: Table): Table
  {
    PutAll(PutAll([], a), b)
  }

  /** The merged table has unique phrases; its phrases are those of `a` in their order
      followed by the phrases of `b` that `a` lacks, in `b`'s order; so a phrase is in it
      exactly when it is in `a` or in `b`. */
  lemma MergeKeys(a: Table, b: Table)
    requires UniqueKeys(a) && UniqueKeys(b)
    ensures UniqueKeys(Merge(a, b))
    ensures Keys(Merge(a, b)) == Keys(a) + FreshKeys(a, b)
    ensures forall k :: k in Keys(Merge(a, b)) <==> k in Keys(a) || k in Keys(b)
  {
    PutAllIntoEmpty(a);
    PutAllKeys(a, b);
    forall k ensures k in Keys(Merge(a, b)) <==> k in Keys(a) || k in Keys(b) {
      PutAllLookup(a, b, k);
      LookupDefined(Merge(a, b), k);
      LookupDefined(a, k);
      LastBindingDefined(b, k);
    }
  }

  /** On a shared phrase the value from `b` wins; every other phrase keeps its value. */
  lemma MergeLookup(a: Table, b: Table, k: string)
    requires UniqueKeys(a) && UniqueKeys(b)
    ensures Lookup(Merge(a, b), k) == if k in Keys(b) then Lookup(b, k) else Lookup(a, k)
  {
    PutAllIntoEmpty(a);
    PutAllLookup(a, b, k);
    LastBindingDefined(b, k);
    LastBindingUnique(b, k);
  }

  /** The entries of `a` keep their positions and phrases in the merged table. */
  lemma MergePrefix(a: Table, b: Table, i: nat)
    requires UniqueKeys(a) && UniqueKeys(b) && i < |a|
    ensures i < |Merge(a, b)| && Merge(a, b)[i].0 == a[i].0
  {
    MergeKeys(a, b);
    assert Keys(Merge(a, b))[i] == Keys(a)[i];
  }

  /** An entry of the first table whose key the second lacks keeps its place and its
      value in the merge. */
  lemma MergeKeeps(a: Table, b: Table, i: nat)
    requires UniqueKeys(a) && UniqueKeys(b) && i < |a|
    requires a[i].0 !in Keys(b)
    ensures i < |Merge(a, b)| && Merge(a, b)[i] == a[i]
  {
    MergeKeys(a, b);
    MergePrefix(a, b, i);
    MergeLookup(a, b, a[i].0);
    LookupAt(a, i);
    LookupAt(Merge(a, b), i);
  }
}
