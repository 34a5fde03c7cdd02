/** The store's backing dictionary as a value, and the merge and lookup rules
    of NamingData stated as functions over it. The class in naming_data.dfy
    is proved to follow these functions. */
module NamingModel {
  import opened CaseFold
  import opened Breakup

  datatype Option<T> = None | Some(value: T)

  /** The one failure a lookup can report. */
  datatype LookupError = KeyNotFound

  datatype Result<T> = Ok(value: T) | Err(error: LookupError)

  /** A (name, raw value) pair of a source: a Hashtable or dictionary entry,
      or a property of a property bag. */
  type Pair = (string, Raw)

  /** A stored entry: the name as it was first spelled, and its flattened value. */
  datatype Entry = Entry(key: string, value: string)

  /** A Dictionary<string, string> together with its comparer: ordinal
      ignore-case when `ignoreCase`, ordinal otherwise. Each entry is filed
      under the comparer's canonical form of its name. */
  datatype Dict = Dict(ignoreCase: bool, entries: map<string, Entry>)

  /** A fresh dictionary with the ignore-case comparer, as the default
      constructor creates it. */
  const Empty: Dict := Dict(true, map[])

  /** The comparer's canonical form of a name. */
  function Canon(ignoreCase: bool, key: string): string
  {
    if ignoreCase then Fold(key) else key
  }

  /** Every entry is filed under its own name's canonical form, no stored
      name is empty, and no two stored names are equal ignoring case. */
  predicate WellFormed(d: Dict)
  {
    && (forall c :: c in d.entries ==> Canon(d.ignoreCase, d.entries[c].key) == c && d.entries[c].key != "")
    && (forall c, c' {:trigger c in d.entries, c' in d.entries} ::
          c in d.entries && c' in d.entries && Fold(c) == Fold(c') ==> c == c')
  }

  /** The dictionary's own ContainsKey, under whatever comparer it has. */
  predicate Has(d: Dict, key: string)
  {
    Canon(d.ignoreCase, key) in d.entries
  }

  /** The plain name-to-value view: each stored spelling with its value. */
  function Pairs(d: Dict): map<string, string>
    requires WellFormed(d)
  {
    map c | c in d.entries :: d.entries[c].key := d.entries[c].value
  }

  /** Each entry appears in the plain view under its stored spelling... */
  lemma PairsOfEntry(d: Dict, c: string)
    requires WellFormed(d) && c in d.entries
    ensures d.entries[c].key in Pairs(d) && Pairs(d)[d.entries[c].key] == d.entries[c].value
  {
  }

  /** ...and each name of the plain view is the stored spelling of the entry
      filed under its canonical form. */
  lemma EntryOfPair(d: Dict, k: string)
    requires WellFormed(d) && k in Pairs(d)
    ensures Canon(d.ignoreCase, k) in d.entries && d.entries[Canon(d.ignoreCase, k)].key == k
    ensures Pairs(d)[k] == d.entries[Canon(d.ignoreCase, k)].value
  {
  }

  /** The dictionary after AssureComparer: with an ignore-case comparer it is
      kept as it is; otherwise every entry is copied into a fresh ignore-case
      dictionary. */
  function Normalize(d: Dict): (n: Dict)
    requires WellFormed(d)
    ensures WellFormed(n) && n.ignoreCase
  {
    if d.ignoreCase then d
    else
      var n := Dict(true, map c | c in d.entries :: Fold(c) := d.entries[c]);
      assert WellFormed(n) by {
        forall c | c in d.entries
          ensures Fold(Fold(c)) == Fold(c)
        {
          FoldIdempotent(c);
        }
      }
      n
  }

  /** Rebuilding the dictionary keeps every (name, value) pair. */
  lemma NormalizeKeepsPairs(d: Dict)
    requires WellFormed(d)
    ensures Pairs(Normalize(d)) == Pairs(d)
  {
    if !d.ignoreCase {
      var n := Normalize(d);
      forall k | k in Pairs(d)
        ensures k in Pairs(n) && Pairs(n)[k] == Pairs(d)[k]
      {
        assert n.entries[Fold(k)] == d.entries[k];
      }
    }
  }

  /** Rebuilding happens at most once: a rebuilt dictionary is kept as it is. */
  lemma NormalizeOnce(d: Dict)
    requires WellFormed(d)
    ensures Normalize(Normalize(d)) == Normalize(d)
    ensures d.ignoreCase ==> Normalize(d) == d
  {
  }

  /** ContainsKey: the name is present, compared ignoring case. */
  predicate Contains(d: Dict, key: string)
    requires WellFormed(d)
  {
    Has(Normalize(d), key)
  }

  /** Get: the value stored under the name, or KeyNotFound. */
  function Lookup(d: Dict, key: string): Result<string>
    requires WellFormed(d)
  {
    var n := Normalize(d);
    if Has(n, key) then Ok(n.entries[Fold(key)].value) else Err(KeyNotFound)
  }

  /** A name is contained exactly when some stored spelling equals it
      ignoring case. */
  lemma ContainsIffStoredSpelling(d: Dict, key: string)
    requires WellFormed(d)
    ensures Contains(d, key) <==> exists s :: s in Pairs(d) && SameIgnoringCase(s, key)
  {
    var n := Normalize(d);
    NormalizeKeepsPairs(d);
    if Contains(d, key) {
      var s := n.entries[Fold(key)].key;
      FoldEqualIff(s, key);
      assert s in Pairs(n);
    }
    if exists s :: s in Pairs(d) && SameIgnoringCase(s, key) {
      var s :| s in Pairs(d) && SameIgnoringCase(s, key);
      FoldEqualIff(s, key);
      assert Fold(s) in n.entries;
    }
  }

  /** The plain view agrees with Get, and every present name has a spelling
      in it. */
  lemma PairsAgreeWithLookup(d: Dict)
    requires WellFormed(d)
    ensures forall k :: k in Pairs(d) ==> Lookup(d, k) == Ok(Pairs(d)[k])
    ensures forall k :: Contains(d, k) ==> exists s :: s in Pairs(d) && Fold(s) == Fold(k)
  {
    var n := Normalize(d);
    NormalizeKeepsPairs(d);
    forall k | k in Pairs(d)
      ensures Lookup(d, k) == Ok(Pairs(d)[k])
    {
      EntryOfPair(n, k);
    }
    forall k | Contains(d, k)
      ensures exists s :: s in Pairs(d) && Fold(s) == Fold(k)
    {
      PairsOfEntry(n, Fold(k));
    }
  }

  /** Rebuilding a non-empty dictionary gives a non-empty one. */
  lemma NormalizeNonEmpty(d: Dict)
    requires WellFormed(d) && d.entries != map[]
    ensures Normalize(d).entries != map[]
  {
    var c :| c in d.entries;
    assert Fold(d.entries[c].key) in Normalize(d).entries;
  }

  /** Names that differ only in letter case find the same entry. */
  lemma LookupIgnoresCase(d: Dict, k1: string, k2: string)
    requires WellFormed(d) && SameIgnoringCase(k1, k2)
    ensures Contains(d, k1) == Contains(d, k2)
    ensures Lookup(d, k1) == Lookup(d, k2)
  {
    FoldEqualIff(k1, k2);
  }

  /** Get fails exactly on an absent name, and otherwise returns the value
      stored under one of the name's spellings. */
  lemma LookupFailsIffAbsent(d: Dict, key: string)
    requires WellFormed(d)
    ensures Lookup(d, key).Err? <==> !Contains(d, key)
    ensures Lookup(d, key).Ok? ==> exists s :: s in Pairs(d) && Fold(s) == Fold(key) && Pairs(d)[s] == Lookup(d, key).value
  {
    NormalizeKeepsPairs(d);
    var n := Normalize(d);
    if Contains(d, key) {
      var s := n.entries[Fold(key)].key;
      assert s in Pairs(n);
    }
  }

  // ---------------------------------------------------------------------
  // Add, the single write primitive

  /** Add's guard: a null value or an empty name is refused. */
  predicate Accepts(key: string, value: Raw)
  {
    value != Null && key != ""
  }

  /** The write into an ignore-case dictionary: a new name is added with its
      own spelling; an existing one keeps its stored spelling and has its
      value replaced only when overwriting. */
  function Put(d: Dict, overwrite: bool, key: string, flat: string): (r: Dict)
    requires WellFormed(d) && d.ignoreCase && key != ""
    ensures WellFormed(r) && r.ignoreCase
  {
    var f := Fold(key);
    FoldIdempotent(key);
    if f !in d.entries then Dict(true, d.entries[f := Entry(key, flat)])
    else if overwrite then Dict(true, d.entries[f := Entry(d.entries[f].key, flat)])
    else d
  }

  /** Add(overwrite, key, value): the new dictionary and whether the name was new. */
  function AddSpec(d: Dict, overwrite: bool, key: string, value: Raw): (r: (Dict, bool))
    requires WellFormed(d)
    ensures WellFormed(r.0)
  {
    if !Accepts(key, value) then (d, false)
    else
      var n := Normalize(d);
      (Put(n, overwrite, key, Flatten(value)), !Has(n, key))
  }

  /** A refused pair changes nothing and reports false. */
  lemma AddRefused(d: Dict, overwrite: bool, key: string, value: Raw)
    requires WellFormed(d) && !Accepts(key, value)
    ensures AddSpec(d, overwrite, key, value) == (d, false)
  {
  }

  /** The spelling under which a name ends up stored: the existing one if a
      name equal ignoring case is present, otherwise its own. */
  function StoredSpelling(d: Dict, key: string): string
    requires WellFormed(d)
  {
    WriteSpelling(Normalize(d), key)
  }

  /** Insert of one accepted pair: Get gives the flattened value, the stored
      spelling of an existing name is kept, and every other pair is unchanged. */
  lemma InsertOne(d: Dict, key: string, value: Raw)
    requires WellFormed(d) && Accepts(key, value)
    ensures Lookup(AddSpec(d, true, key, value).0, key) == Ok(Flatten(value))
    ensures Pairs(AddSpec(d, true, key, value).0) == Pairs(d)[StoredSpelling(d, key) := Flatten(value)]
    ensures forall k :: Fold(k) != Fold(key) ==> Lookup(AddSpec(d, true, key, value).0, k) == Lookup(d, k)
  {
    var n := Normalize(d);
    var flat := Flatten(value);
    assert AddSpec(d, true, key, value).0 == Put(n, true, key, flat);
    NormalizeKeepsPairs(d);
    PutPairs(n, true, key, flat);
    PutLookup(n, true, key, flat);
    forall k | Fold(k) != Fold(key)
      ensures Lookup(Put(n, true, key, flat), k) == Lookup(d, k)
    {
      PutLookupOther(n, true, key, flat, k);
    }
  }

  /** After a write that happens, Get on the written name gives the new value. */
  lemma PutLookup(d: Dict, overwrite: bool, key: string, flat: string)
    requires WellFormed(d) && d.ignoreCase && key != "" && (!Has(d, key) || overwrite)
    ensures Lookup(Put(d, overwrite, key, flat), key) == Ok(flat)
  {
    FoldIdempotent(key);
  }

  /** A write leaves Get on every other name as it was. */
  lemma PutLookupOther(d: Dict, overwrite: bool, key: string, flat: string, k: string)
    requires WellFormed(d) && d.ignoreCase && key != "" && Fold(k) != Fold(key)
    ensures Lookup(Put(d, overwrite, key, flat), k) == Lookup(d, k)
  {
    FoldIdempotent(key);
  }

  /** TryAdd of one pair: it reports true exactly when the pair is accepted
      and its name absent; then the pair is added, otherwise every pair stays
      as it was. */
  lemma TryAddOne(d: Dict, key: string, value: Raw)
    requires WellFormed(d)
    ensures AddSpec(d, false, key, value).1 <==> Accepts(key, value) && !Contains(d, key)
    ensures AddSpec(d, false, key, value).1 ==>
      Pairs(AddSpec(d, false, key, value).0) == Pairs(d)[key := Flatten(value)]
    ensures !AddSpec(d, false, key, value).1 ==> Pairs(AddSpec(d, false, key, value).0) == Pairs(d)
  {
    NormalizeKeepsPairs(d);
    if Accepts(key, value) {
      PutPairs(Normalize(d), false, key, Flatten(value));
    }
  }

  /** The spelling a write files its value under: the stored one if the name
      is present, otherwise its own. */
  function WriteSpelling(d: Dict, key: string): string
    requires WellFormed(d) && d.ignoreCase
  {
    if Has(d, key) then d.entries[Fold(key)].key else key
  }

  lemma PutPairsFrom(d: Dict, overwrite: bool, key: string, flat: string, k: string)
    requires WellFormed(d) && d.ignoreCase && key != "" && (!Has(d, key) || overwrite)
    requires k in Pairs(Put(d, overwrite, key, flat))
    ensures k in Pairs(d)[WriteSpelling(d, key) := flat]
    ensures Pairs(d)[WriteSpelling(d, key) := flat][k] == Pairs(Put(d, overwrite, key, flat))[k]
  {
    var r := Put(d, overwrite, key, flat);
    var f := Fold(key);
    FoldIdempotent(key);
    assert f in r.entries && r.entries[f] == Entry(WriteSpelling(d, key), flat);
    EntryOfPair(r, k);
    if Fold(k) != f {
      assert r.entries[Fold(k)] == d.entries[Fold(k)];
      PairsOfEntry(d, Fold(k));
    }
  }

  lemma PutPairsTo(d: Dict, overwrite: bool, key: string, flat: string, k: string)
    requires WellFormed(d) && d.ignoreCase && key != "" && (!Has(d, key) || overwrite)
    requires k in Pairs(d)[WriteSpelling(d, key) := flat]
    ensures k in Pairs(Put(d, overwrite, key, flat))
  {
    var r := Put(d, overwrite, key, flat);
    var f := Fold(key);
    FoldIdempotent(key);
    assert f in r.entries && r.entries[f] == Entry(WriteSpelling(d, key), flat);
    if k == WriteSpelling(d, key) {
      PairsOfEntry(r, f);
    } else {
      EntryOfPair(d, k);
      assert Fold(k) != f;
      assert r.entries[Fold(k)] == d.entries[Fold(k)];
      PairsOfEntry(r, Fold(k));
    }
  }

  /** The plain view after a write: when the write happens, the one spelling
      it files under gets the new value and nothing else changes. */
  lemma PutPairs(d: Dict, overwrite: bool, key: string, flat: string)
    requires WellFormed(d) && d.ignoreCase && key != ""
    ensures Pairs(Put(d, overwrite, key, flat)) ==
      if Has(d, key) && !overwrite then Pairs(d) else Pairs(d)[WriteSpelling(d, key) := flat]
  {
    if !Has(d, key) || overwrite {
      var r := Pairs(Put(d, overwrite, key, flat));
      var want := Pairs(d)[WriteSpelling(d, key) := flat];
      forall k | k in r
        ensures k in want && want[k] == r[k]
      {
        PutPairsFrom(d, overwrite, key, flat, k);
      }
      forall k | k in want
        ensures k in r
      {
        PutPairsTo(d, overwrite, key, flat, k);
      }
      assert r == want;
    }
  }

  /** TryAdd twice under names equal ignoring case: the first value stays and
      the second call reports false. */
  lemma TryAddNeverOverwrites(d: Dict, k1: string, v1: Raw, k2: string, v2: Raw)
    requires WellFormed(d) && Accepts(k1, v1) && SameIgnoringCase(k1, k2)
    requires !Contains(d, k1)
    ensures !AddSpec(AddSpec(d, false, k1, v1).0, false, k2, v2).1
    ensures Lookup(AddSpec(AddSpec(d, false, k1, v1).0, false, k2, v2).0, k2) == Ok(Flatten(v1))
  {
    FoldEqualIff(k1, k2);
  }

  // ---------------------------------------------------------------------
  // Batches: the Insert and TryAdd overloads that take a whole source

  /** Add applied to every pair of a source in order; the flag is the
      conjunction of the per-pair results, each pair being attempted
      whatever the earlier ones reported. */
  function BatchSpec(d: Dict, overwrite: bool, ps: seq<Pair>): (r: (Dict, bool))
    requires WellFormed(d)
    ensures WellFormed(r.0)
  {
    if ps == [] then (d, true)
    else
      var prev := BatchSpec(d, overwrite, ps[..|ps| - 1]);
      var last := AddSpec(prev.0, overwrite, ps[|ps| - 1].0, ps[|ps| - 1].1);
      (last.0, last.1 && prev.1)
  }

  /** The canonical names of the accepted pairs of a source. */
  function AcceptedNames(ps: seq<Pair>): set<string>
  {
    set i | 0 <= i < |ps| && Accepts(ps[i].0, ps[i].1) :: Fold(ps[i].0)
  }

  /** One Add makes the name of an accepted pair present and no other. */
  lemma AddNames(d: Dict, overwrite: bool, key: string, value: Raw)
    requires WellFormed(d)
    ensures Normalize(AddSpec(d, overwrite, key, value).0).entries.Keys ==
      Normalize(d).entries.Keys + (if Accepts(key, value) then {Fold(key)} else {})
  {
  }

  lemma AcceptedNamesSnoc(ps: seq<Pair>)
    requires ps != []
    ensures AcceptedNames(ps) == AcceptedNames(ps[..|ps| - 1]) +
      (if Accepts(ps[|ps| - 1].0, ps[|ps| - 1].1) then {Fold(ps[|ps| - 1].0)} else {})
  {
    var n := |ps| - 1;
    var qs := ps[..n];
    forall f | f in AcceptedNames(ps)
      ensures f in AcceptedNames(qs) || (Accepts(ps[n].0, ps[n].1) && f == Fold(ps[n].0))
    {
      var i :| 0 <= i < |ps| && Accepts(ps[i].0, ps[i].1) && f == Fold(ps[i].0);
      if i < n {
        assert qs[i] == ps[i];
      }
    }
    forall f | f in AcceptedNames(qs)
      ensures f in AcceptedNames(ps)
    {
      var i :| 0 <= i < n && Accepts(qs[i].0, qs[i].1) && f == Fold(qs[i].0);
      assert ps[i] == qs[i];
    }
  }

  /** After a batch the present names are the earlier ones and those of the
      accepted pairs. */
  lemma {:induction false} BatchNames(d: Dict, overwrite: bool, ps: seq<Pair>)
    requires WellFormed(d)
    ensures Normalize(BatchSpec(d, overwrite, ps).0).entries.Keys == Normalize(d).entries.Keys + AcceptedNames(ps)
  {
    if ps != [] {
      var n := |ps| - 1;
      BatchNames(d, overwrite, ps[..n]);
      AddNames(BatchSpec(d, overwrite, ps[..n]).0, overwrite, ps[n].0, ps[n].1);
      AcceptedNamesSnoc(ps);
    }
  }

  /** Every pair of the source is accepted, absent beforehand, and no two of
      its names are equal ignoring case. */
  predicate AllNew(d: Dict, ps: seq<Pair>)
    requires WellFormed(d)
  {
    && (forall i :: 0 <= i < |ps| ==> Accepts(ps[i].0, ps[i].1) && !Contains(d, ps[i].0))
    && (forall i, j :: 0 <= i < j < |ps| ==> Fold(ps[i].0) != Fold(ps[j].0))
  }

  lemma AllNewSnoc(d: Dict, ps: seq<Pair>)
    requires WellFormed(d) && ps != []
    ensures AllNew(d, ps) <==>
      && AllNew(d, ps[..|ps| - 1])
      && Accepts(ps[|ps| - 1].0, ps[|ps| - 1].1) && !Contains(d, ps[|ps| - 1].0)
      && forall i :: 0 <= i < |ps| - 1 ==> Fold(ps[i].0) != Fold(ps[|ps| - 1].0)
  {
    var n := |ps| - 1;
    var qs := ps[..n];
    assert forall i :: 0 <= i < n ==> qs[i] == ps[i];
  }

  /** A batch reports true exactly when every one of its pairs was new:
      a refused pair or one collision anywhere makes it false. */
  lemma {:induction false} BatchResultIffAllNew(d: Dict, overwrite: bool, ps: seq<Pair>)
    requires WellFormed(d)
    ensures BatchSpec(d, overwrite, ps).1 <==> AllNew(d, ps)
  {
    if ps != [] {
      var n := |ps| - 1;
      var qs := ps[..n];
      BatchResultIffAllNew(d, overwrite, qs);
      BatchNames(d, overwrite, qs);
      AllNewSnoc(d, ps);
      var prev := BatchSpec(d, overwrite, qs).0;
      assert BatchSpec(d, overwrite, ps).1 == (AddSpec(prev, overwrite, ps[n].0, ps[n].1).1 && BatchSpec(d, overwrite, qs).1);
      if AllNew(d, qs) && Accepts(ps[n].0, ps[n].1) {
        assert AddSpec(prev, overwrite, ps[n].0, ps[n].1).1 <==> Fold(ps[n].0) !in Normalize(prev).entries;
        if Fold(ps[n].0) in AcceptedNames(qs) {
          var i :| 0 <= i < n && Accepts(qs[i].0, qs[i].1) && Fold(ps[n].0) == Fold(qs[i].0);
          assert qs[i] == ps[i];
        }
        if exists i :: 0 <= i < n && Fold(ps[i].0) == Fold(ps[n].0) {
          var i :| 0 <= i < n && Fold(ps[i].0) == Fold(ps[n].0);
          assert qs[i] == ps[i];
          assert Fold(ps[n].0) in AcceptedNames(qs);
        }
      }
    }
  }

  /** TryAdd of a batch never changes an entry that was present before. */
  lemma {:induction false} TryAddBatchKeeps(d: Dict, ps: seq<Pair>)
    requires WellFormed(d)
    ensures forall f :: f in Normalize(d).entries ==>
      f in Normalize(BatchSpec(d, false, ps).0).entries &&
      Normalize(BatchSpec(d, false, ps).0).entries[f] == Normalize(d).entries[f]
  {
    if ps != [] {
      TryAddBatchKeeps(d, ps[..|ps| - 1]);
    }
  }

  /** Get and the stored spelling read only the entry filed under the name's fold. */
  lemma ReadsEntry(d: Dict, key: string, e: Entry)
    requires WellFormed(d)
    requires Fold(key) in Normalize(d).entries && Normalize(d).entries[Fold(key)] == e
    ensures Lookup(d, key) == Ok(e.value) && StoredSpelling(d, key) == e.key
  {
  }

  /** The entry one TryAdd files for a new name. */
  lemma TryAddNewEntry(d: Dict, key: string, value: Raw)
    requires WellFormed(d) && Accepts(key, value) && !Contains(d, key)
    ensures Fold(key) in Normalize(AddSpec(d, false, key, value).0).entries
    ensures Normalize(AddSpec(d, false, key, value).0).entries[Fold(key)] == Entry(key, Flatten(value))
  {
    FoldIdempotent(key);
  }

  /** TryAdd of a batch: the first accepted occurrence of a name that was
      absent is the one that is stored, with its own spelling. */
  lemma {:induction false} TryAddBatchFirstWins(d: Dict, ps: seq<Pair>, i: nat)
    requires WellFormed(d) && i < |ps|
    requires Accepts(ps[i].0, ps[i].1) && !Contains(d, ps[i].0)
    requires forall j :: 0 <= j < i && Accepts(ps[j].0, ps[j].1) ==> Fold(ps[j].0) != Fold(ps[i].0)
    ensures Lookup(BatchSpec(d, false, ps).0, ps[i].0) == Ok(Flatten(ps[i].1))
    ensures StoredSpelling(BatchSpec(d, false, ps).0, ps[i].0) == ps[i].0
  {
    var e := Entry(ps[i].0, Flatten(ps[i].1));
    var f := Fold(ps[i].0);
    FirstWinsEntry(d, ps, i);
    ReadsEntry(BatchSpec(d, false, ps).0, ps[i].0, e);
  }

  lemma {:induction false} FirstWinsEntry(d: Dict, ps: seq<Pair>, i: nat)
    requires WellFormed(d) && i < |ps|
    requires Accepts(ps[i].0, ps[i].1) && !Contains(d, ps[i].0)
    requires forall j :: 0 <= j < i && Accepts(ps[j].0, ps[j].1) ==> Fold(ps[j].0) != Fold(ps[i].0)
    ensures Fold(ps[i].0) in Normalize(BatchSpec(d, false, ps).0).entries
    ensures Normalize(BatchSpec(d, false, ps).0).entries[Fold(ps[i].0)] == Entry(ps[i].0, Flatten(ps[i].1))
  {
    var n := |ps| - 1;
    var qs := ps[..n];
    var prev := BatchSpec(d, false, qs).0;
    assert BatchSpec(d, false, ps).0 == AddSpec(prev, false, ps[n].0, ps[n].1).0;
    if i == n {
      BatchNames(d, false, qs);
      assert Fold(ps[n].0) !in AcceptedNames(qs);
      assert !Contains(prev, ps[n].0);
      TryAddNewEntry(prev, ps[n].0, ps[n].1);
    } else {
      forall j | 0 <= j < i && Accepts(qs[j].0, qs[j].1)
        ensures Fold(qs[j].0) != Fold(qs[i].0)
      {
        assert qs[j] == ps[j];
      }
      FirstWinsEntry(d, qs, i);
      TryAddBatchKeeps(prev, [ps[n]]);
      assert BatchSpec(prev, false, [ps[n]]).0 == AddSpec(prev, false, ps[n].0, ps[n].1).0 by {
        assert [ps[n]][..0] == [];
      }
    }
  }

  /** Insert of a batch: the last accepted occurrence of a name is the one
      whose value is stored. */
  lemma {:induction false} InsertBatchLastWins(d: Dict, ps: seq<Pair>, i: nat)
    requires WellFormed(d) && i < |ps| && Accepts(ps[i].0, ps[i].1)
    requires forall j :: i < j < |ps| && Accepts(ps[j].0, ps[j].1) ==> Fold(ps[j].0) != Fold(ps[i].0)
    ensures Lookup(BatchSpec(d, true, ps).0, ps[i].0) == Ok(Flatten(ps[i].1))
  {
    var n := |ps| - 1;
    var qs := ps[..n];
    var prev := BatchSpec(d, true, qs).0;
    if i == n {
      InsertOne(prev, ps[n].0, ps[n].1);
    } else {
      forall j | i < j < |qs| && Accepts(qs[j].0, qs[j].1)
        ensures Fold(qs[j].0) != Fold(qs[i].0)
      {
        assert qs[j] == ps[j];
      }
      InsertBatchLastWins(d, qs, i);
      if Accepts(ps[n].0, ps[n].1) {
        InsertOne(prev, ps[n].0, ps[n].1);
      }
    }
  }

  /** Insert of a batch leaves Get on every name outside the batch as it was. */
  lemma {:induction false} InsertBatchKeepsOthers(d: Dict, ps: seq<Pair>, k: string)
    requires WellFormed(d) && Fold(k) !in AcceptedNames(ps)
    ensures Lookup(BatchSpec(d, true, ps).0, k) == Lookup(d, k)
  {
    if ps != [] {
      var n := |ps| - 1;
      var qs := ps[..n];
      AcceptedNamesSnoc(ps);
      InsertBatchKeepsOthers(d, qs, k);
      if Accepts(ps[n].0, ps[n].1) {
        InsertOne(BatchSpec(d, true, qs).0, ps[n].0, ps[n].1);
      }
    }
  }

  // ---------------------------------------------------------------------
  // Merging another store without overwriting

  /** One step of a merge that keeps existing entries: the entries merged so
      far, `src - rest`, beneath the original ones, `t0`, grow by `f`. */
  lemma MergeStep(src: map<string, Entry>, rest: set<string>, t0: map<string, Entry>, f: string)
    requires rest <= src.Keys && f in rest
    ensures f in (src - rest) + t0 <==> f in t0
    ensures rest == src.Keys ==> (src - rest) + t0 == t0
    ensures f !in t0 ==> ((src - rest) + t0)[f := src[f]] == (src - (rest - {f})) + t0
    ensures f in t0 ==> (src - rest) + t0 == (src - (rest - {f})) + t0
  {
    if rest == src.Keys {
      assert src - rest == map[];
    }
  }

  /** Entries filed under the fold of their own non-empty names: the shape
      of an ignore-case dictionary's contents. */
  predicate Indexed(m: map<string, Entry>)
  {
    forall c :: c in m ==> Fold(m[c].key) == c && m[c].key != ""
  }

  lemma IndexedWellFormed(m: map<string, Entry>)
    requires Indexed(m)
    ensures WellFormed(Dict(true, m))
  {
    forall c | c in m
      ensures Fold(c) == c
    {
      FoldIdempotent(m[c].key);
    }
  }

  /** One step of copying another store's entries into a store that held
      none: Insert of the next entry files it unchanged. */
  lemma CopyAdd(src: map<string, Entry>, rest: set<string>, f: string)
    requires Indexed(src) && rest <= src.Keys && f in rest
    ensures Indexed(src - rest) && Indexed(src - (rest - {f}))
    ensures WellFormed(Dict(true, src - rest))
    ensures AddSpec(Dict(true, src - rest), true, src[f].key, Str(src[f].value)).0 == Dict(true, src - (rest - {f}))
  {
    IndexedWellFormed(src - rest);
    var e := src[f];
    assert Fold(e.key) == f;
    assert (src - rest)[f := Entry(e.key, Flatten(Str(e.value)))] == src - (rest - {f});
  }

  /** One step of merging another store's entries without overwriting: the
      entry is filed unless its name was there from the start, and it is
      reported new exactly then. */
  lemma MergeAdd(src: map<string, Entry>, rest: set<string>, t0: map<string, Entry>, f: string)
    requires Indexed(src) && Indexed(t0) && rest <= src.Keys && f in rest
    ensures Indexed((src - rest) + t0) && Indexed((src - (rest - {f})) + t0)
    ensures rest == src.Keys ==> (src - rest) + t0 == t0
    ensures WellFormed(Dict(true, (src - rest) + t0))
    ensures AddSpec(Dict(true, (src - rest) + t0), false, src[f].key, Str(src[f].value)) ==
      (Dict(true, (src - (rest - {f})) + t0), f !in t0)
  {
    var m := (src - rest) + t0;
    IndexedWellFormed(m);
    MergeStep(src, rest, t0, f);
    var e := src[f];
    assert Fold(e.key) == f;
    if f !in t0 {
      assert m[f := Entry(e.key, Flatten(Str(e.value)))] == (src - (rest - {f})) + t0;
    }
  }

  /** The entries of a case-sensitive dictionary whose names are in `done`,
      refiled under their folds: what AssureComparer has copied so far. */
  function Refiled(m: map<string, Entry>, done: set<string>): map<string, Entry>
    requires WellFormed(Dict(false, m))
  {
    map c | c in m && c in done :: Fold(c) := m[c]
  }

  /** Copying one more entry files it under a fold not yet taken. */
  lemma RefiledStep(m: map<string, Entry>, done: set<string>, c: string)
    requires WellFormed(Dict(false, m)) && c in m && c !in done
    ensures Fold(m[c].key) !in Refiled(m, done)
    ensures Refiled(m, done + {c}) == Refiled(m, done)[Fold(m[c].key) := m[c]]
  {
    assert m[c].key == c;
  }

  /** Once every entry is copied, the copy is the rebuilt dictionary. */
  lemma RefiledAll(m: map<string, Entry>)
    requires WellFormed(Dict(false, m))
    ensures Refiled(m, m.Keys) == Normalize(Dict(false, m)).entries
    ensures Refiled(m, {}) == map[]
  {
  }
}
