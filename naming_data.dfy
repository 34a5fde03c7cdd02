/** The NamingData class: a name-to-string store, compared ignoring case,
    that merges configuration values from several kinds of source. */
module Naming {
  import opened CaseFold
  import opened Breakup
  import opened NamingModel

  class NamingData {
    /** The backing dictionary with its comparer. It is a public field, so
        code outside the class may replace it (see AssignBaseValues). */
    var BaseValues: Dict

    ghost predicate Valid()
      reads this
    {
      WellFormed(BaseValues)
    }

    /** The explicit conversion to Dictionary<string, string>: the stored
        (name, value) pairs, and an empty dictionary for a null store. */
    static function AsMap(naming: NamingData?): (m: map<string, string>)
      reads naming
      requires naming != null ==> naming.Valid()
      ensures naming == null ==> m == map[]
      ensures naming != null ==> forall k :: k in m ==> Lookup(naming.BaseValues, k) == Ok(m[k])
      ensures naming != null ==> forall k :: Contains(naming.BaseValues, k) ==> exists s :: s in m && Fold(s) == Fold(k)
      ensures naming != null ==> forall k :: k in m ==> StoredSpelling(naming.BaseValues, k) == k
    {
      if naming == null then map[]
      else
        PairsAgreeWithLookup(naming.BaseValues);
        NormalizeKeepsPairs(naming.BaseValues);
        assert forall k :: k in Pairs(naming.BaseValues) ==> StoredSpelling(naming.BaseValues, k) == k by {
          forall k | k in Pairs(naming.BaseValues)
            ensures StoredSpelling(naming.BaseValues, k) == k
          {
            EntryOfPair(Normalize(naming.BaseValues), k);
          }
        }
        Pairs(naming.BaseValues)
    }

    /** The default constructor: empty, with the ignore-case comparer. */
    constructor ()
      ensures Valid() && BaseValues == Empty
    {
      BaseValues := Empty;
    }

    /** The constructors from a Dictionary<string, object>, a Hashtable or a
        property bag: the source is merged without overwriting. */
    constructor FromSource(naming: Option<seq<Pair>>)
      ensures Valid()
      ensures BaseValues == if naming.None? then Empty else BatchSpec(Empty, false, naming.value).0
    {
      BaseValues := Empty;
      new;
      var isUnique := TryAdd(naming);
    }

    /** The copy constructor: every pair of the other store, under the
        ignore-case comparer. */
    constructor Copy(naming: NamingData?)
      requires naming != null ==> naming.Valid()
      ensures Valid()
      ensures BaseValues == if naming == null then Empty else Normalize(naming.BaseValues)
      ensures naming != null ==> Pairs(BaseValues) == Pairs(naming.BaseValues)
    {
      BaseValues := Empty;
      new;
      if naming == null {
        return;
      }
      // Insert((Dictionary<string, string>)naming): each stored pair in turn.
      ghost var other := naming.BaseValues;
      var src := Normalize(naming.BaseValues).entries;
      assert Indexed(src);
      var rest := src.Keys;
      while rest != {}
        invariant rest <= src.Keys
        invariant BaseValues == Dict(true, src - rest)
        decreases rest
      {
        var f :| f in rest;
        CopyAdd(src, rest, f);
        InsertEntry(src[f].key, Str(src[f].value));
        rest := rest - {f};
      }
      assert src - {} == src;
      assert BaseValues == Normalize(other);
      assert Valid();
      AssureComparer();
      NormalizeKeepsPairs(other);
    }

    /** Replacing the public field with a dictionary that has the default,
        case-sensitive comparer, as a deserializer or a caller may do. */
    method AssignBaseValues(values: map<string, string>)
      requires forall k :: k in values ==> k != ""
      requires forall k, k' :: k in values && k' in values && Fold(k) == Fold(k') ==> k == k'
      modifies this
      ensures Valid() && !BaseValues.ignoreCase
      ensures Pairs(BaseValues) == values
    {
      BaseValues := Dict(false, map k | k in values :: Entry(k, values[k]));
    }

    /** Rebuilds the backing dictionary with the ignore-case comparer unless
        it already has it; a second call changes nothing. */
    method AssureComparer()
      requires Valid()
      modifies this
      ensures Valid() && BaseValues.ignoreCase
      ensures BaseValues == Normalize(old(BaseValues))
      ensures old(BaseValues.ignoreCase) ==> BaseValues == old(BaseValues)
    {
      if BaseValues.ignoreCase {
        return;
      }
      var m := BaseValues.entries;
      assert old(BaseValues) == Dict(false, m);
      var correctComparer: map<string, Entry> := map[];
      var rest := m.Keys;
      ghost var done: set<string> := {};
      RefiledAll(m);
      while rest != {}
        invariant rest <= m.Keys && done == m.Keys - rest
        invariant correctComparer == Refiled(m, done)
        decreases rest
      {
        var c :| c in rest;
        // The dictionary's Add would throw on a name already present; no
        // two stored names are equal ignoring case, so it cannot.
        RefiledStep(m, done, c);
        correctComparer := correctComparer[Fold(m[c].key) := m[c]];
        done := done + {c};
        rest := rest - {c};
      }
      assert done == m.Keys;
      BaseValues := Dict(true, correctComparer);
    }

    method ContainsKey(key: string) returns (r: bool)
      requires Valid()
      modifies this
      ensures Valid() && BaseValues == Normalize(old(BaseValues))
      ensures r == Contains(old(BaseValues), key)
    {
      AssureComparer();
      r := Has(BaseValues, key);
    }

    /** The indexer: KeyNotFound when the name is absent. */
    method Get(key: string) returns (r: Result<string>)
      requires Valid()
      modifies this
      ensures Valid() && BaseValues == Normalize(old(BaseValues))
      ensures r == Lookup(old(BaseValues), key)
    {
      AssureComparer();
      if Has(BaseValues, key) {
        r := Ok(BaseValues.entries[Fold(key)].value);
      } else {
        r := Err(KeyNotFound);
      }
    }

    /** TryGet with its `ref` argument passed in as `value` and handed back
        as `value'` (None stands for null): an absent name leaves it as it
        was, and a present one overwrites it only when it was not null. */
    method TryGet(key: string, value: Option<string>) returns (isContained: bool, value': Option<string>)
      requires Valid()
      modifies this
      ensures Valid() && BaseValues == Normalize(old(BaseValues))
      ensures isContained == Contains(old(BaseValues), key)
      ensures !isContained || value.None? ==> value' == value
      ensures isContained && value.Some? ==> value' == Some(Lookup(old(BaseValues), key).value)
    {
      value' := value;
      isContained := ContainsKey(key);
      if !isContained {
        return;
      }
      if value.Some? {
        value' := Some(BaseValues.entries[Fold(key)].value);
      }
    }

    /** The single write primitive: refuses a null value or an empty name;
        otherwise flattens the value and adds it under a new name, or, for a
        present name, replaces its value when overwriting. Reports whether
        the name was new. */
    method Add(overwrite: bool, key: string, value: Raw) returns (isUnique: bool)
      requires Valid()
      modifies this
      ensures Valid()
      ensures (BaseValues, isUnique) == AddSpec(old(BaseValues), overwrite, key, value)
    {
      isUnique := true;
      if value == Null || key == "" {
        return false;
      }
      // BreakupValue begins with AssureComparer(); it is called here once.
      AssureComparer();
      ghost var n := BaseValues;
      var finalResult := BreakupValue("", value);
      var contained := ContainsKey(key);
      assert BaseValues == n && contained == Has(n, key);
      var f := Fold(key);
      FoldIdempotent(key);
      assert finalResult == Flatten(value);
      assert n == Normalize(old(BaseValues)) && n.ignoreCase;
      assert AddSpec(old(BaseValues), overwrite, key, value) == (Put(n, overwrite, key, finalResult), !Has(n, key));
      if !contained {
        BaseValues := BaseValues.(entries := BaseValues.entries[f := Entry(key, finalResult)]);
      } else {
        isUnique := false;
        if overwrite {
          BaseValues := BaseValues.(entries := BaseValues.entries[f := BaseValues.entries[f].(value := finalResult)]);
        }
      }
    }

    /** Insert(key, value): Add, overwriting. */
    method InsertEntry(key: string, value: Raw)
      requires Valid()
      modifies this
      ensures Valid()
      ensures BaseValues == AddSpec(old(BaseValues), true, key, value).0
    {
      var isUnique := Add(true, key, value);
    }

    /** TryAdd(key, value): Add, keeping an existing entry. */
    method TryAddEntry(key: string, value: Raw) returns (isUnique: bool)
      requires Valid()
      modifies this
      ensures Valid()
      ensures (BaseValues, isUnique) == AddSpec(old(BaseValues), false, key, value)
      ensures isUnique <==> Accepts(key, value) && !Contains(old(BaseValues), key)
    {
      isUnique := Add(false, key, value);
      TryAddOne(old(BaseValues), key, value);
    }

    /** The Insert overloads for a Hashtable, a property bag and the two
        dictionary types: every pair is added, overwriting; a null source
        changes nothing. */
    method Insert(values: Option<seq<Pair>>)
      requires Valid()
      modifies this
      ensures Valid()
      ensures BaseValues == if values.None? then old(BaseValues) else BatchSpec(old(BaseValues), true, values.value).0
    {
      if values.None? || |values.value| == 0 {
        return;
      }
      var ps := values.value;
      for i := 0 to |ps|
        invariant Valid() && BaseValues == BatchSpec(old(BaseValues), true, ps[..i]).0
      {
        var isUnique := Add(true, ps[i].0, ps[i].1);
        assert ps[..i + 1][..i] == ps[..i];
      }
      assert ps[..|ps|] == ps;
    }

    /** The TryAdd overloads for a Hashtable, a property bag and the two
        dictionary types: every pair is attempted without overwriting, and
        the result is true exactly when every pair was new. A null source
        changes nothing and gives true. */
    method TryAdd(values: Option<seq<Pair>>) returns (isUnique: bool)
      requires Valid()
      modifies this
      ensures Valid()
      ensures values.None? ==> BaseValues == old(BaseValues) && isUnique
      ensures values.Some? ==> (BaseValues, isUnique) == BatchSpec(old(BaseValues), false, values.value)
      ensures isUnique <==> values.None? || AllNew(old(BaseValues), values.value)
    {
      isUnique := true;
      if values.Some? && |values.value| > 0 {
        var ps := values.value;
        for i := 0 to |ps|
          invariant Valid() && (BaseValues, isUnique) == BatchSpec(old(BaseValues), false, ps[..i])
        {
          var added := TryAddEntry(ps[i].0, ps[i].1);
          isUnique := added && isUnique;
          assert ps[..i + 1][..i] == ps[..i];
        }
        assert ps[..|ps|] == ps;
      }
      if values.Some? {
        BatchResultIffAllNew(old(BaseValues), false, values.value);
      }
    }

    /** TryAdd of another store: each of its pairs is added unless the name
        is already present; the result is true exactly when none was. */
    method TryAddFrom(naming: NamingData?) returns (isUnique: bool)
      requires Valid() && (naming != null ==> naming.Valid())
      modifies this
      ensures Valid()
      ensures naming == null || old(naming.BaseValues.entries) == map[] ==> BaseValues == old(BaseValues) && isUnique
      ensures naming != null && old(naming.BaseValues.entries) != map[] ==>
        BaseValues == Dict(true, old(Normalize(naming.BaseValues).entries) + old(Normalize(BaseValues).entries))
      ensures naming != null ==>
        (isUnique <==> old(Normalize(naming.BaseValues).entries.Keys) !! old(Normalize(BaseValues).entries.Keys))
    {
      isUnique := true;
      if naming == null || naming.BaseValues.entries == map[] {
        return;
      }
      var src := Normalize(naming.BaseValues).entries;
      NormalizeNonEmpty(naming.BaseValues);
      isUnique := MergeEntries(src);
    }

    /** The loop of TryAdd(NamingData): the entries of `src`, in any order,
        each attempted without overwriting. */
    method MergeEntries(src: map<string, Entry>) returns (isUnique: bool)
      requires Valid() && Indexed(src) && src != map[]
      modifies this
      ensures Valid()
      ensures BaseValues == Dict(true, src + old(Normalize(BaseValues).entries))
      ensures isUnique <==> src.Keys !! old(Normalize(BaseValues).entries.Keys)
    {
      isUnique := true;
      ghost var ob := BaseValues;
      ghost var t0 := Normalize(BaseValues).entries;
      assert Indexed(t0);
      var rest := src.Keys;
      while rest != {}
        invariant rest <= src.Keys
        invariant rest == src.Keys ==> BaseValues == ob && isUnique
        invariant rest != src.Keys ==> BaseValues == Dict(true, (src - rest) + t0)
        invariant isUnique <==> (src.Keys - rest) !! t0.Keys
        decreases rest
      {
        var f :| f in rest;
        MergeAdd(src, rest, t0, f);
        assert Valid() && Normalize(BaseValues) == Dict(true, (src - rest) + t0);
        var added := TryAddEntry(src[f].key, Str(src[f].value));
        isUnique := added && isUnique;
        rest := rest - {f};
      }
      assert src - {} == src && src.Keys != {};
      assert Indexed(src + t0);
      IndexedWellFormed(src + t0);
    }
  }
}
