/** The strong-parameter container: a value wrapping a parameter mapping,
    with `permit` and `except` as its entry points.  Both return a new
    container and leave the receiver as it was, so calls chain. */
module StrongParams {
  import opened Values
  import opened Patterns
  import opened FilterSpec
  import opened TreeFilter

  datatype StrongParam = StrongParam(data: map<string, Value>)

  /** Wraps a raw value: a mapping is kept key for key, anything else
      (null, a number, a string, an array, Infinity) becomes the empty
      mapping, silently. */
  function New(raw: Value): (c: StrongParam)
    ensures raw.Obj? ==> forall k :: (k in c.data <==> k in raw.fields) &&
                                      (k in c.data ==> c.data[k] == raw.fields[k])
    ensures !raw.Obj? ==> |c.data| == 0
  {
    if raw.Obj? then StrongParam(raw.fields) else StrongParam(map[])
  }

  /** `permit(args...)`: keeps only the keys some argument names, and
      filters the sub-mapping of each key that has nested arguments.  A
      pattern that does not compile makes the whole call fail. */
  function Permit(c: StrongParam, args: seq<Spec>): (r: Result<StrongParam>)
    ensures r.Err? <==> !Valid(args)
    ensures r.Err? ==> FirstError(args) == Some(r.error)
    ensures r.Ok? ==> forall k :: k in r.value.data <==> k in c.data && NamedBy(args, k)
    ensures r.Ok? ==> forall k | k in r.value.data && !(NestsUnder(args, k) && c.data[k].Obj?) ::
                        r.value.data[k] == c.data[k]
    ensures r.Ok? ==> Pruned(r.value.data, c.data)
  {
    match FirstError(args)
    case Some(e) => Err(e)
    case None =>
      NormalizeMeaning(args);
      Ok(StrongParam(PermitFields(c.data, Normalize(args))))
  }

  /** `except(args...)`: drops the keys some argument names, except that a
      key with nested arguments stays and has its sub-mapping filtered
      instead.  A pattern that does not compile makes the whole call fail. */
  function Except(c: StrongParam, args: seq<Spec>): (r: Result<StrongParam>)
    ensures r.Err? <==> !Valid(args)
    ensures r.Err? ==> FirstError(args) == Some(r.error)
    ensures r.Ok? ==> forall k :: k in r.value.data <==>
                        k in c.data && (!NamedBy(args, k) || NestsUnder(args, k))
    ensures r.Ok? ==> forall k | k in r.value.data && !(NestsUnder(args, k) && c.data[k].Obj?) ::
                        r.value.data[k] == c.data[k]
    ensures r.Ok? ==> Pruned(r.value.data, c.data)
  {
    match FirstError(args)
    case Some(e) => Err(e)
    case None =>
      NormalizeMeaning(args);
      Ok(StrongParam(ExceptFields(c.data, Normalize(args))))
  }

  /** Nested filtering at every depth: under a key that has nested
      arguments and holds a mapping, the result of `permit` holds the
      result of `permit` on that sub-mapping with the sub-arguments for
      the key. */
  lemma PermitDescends(c: StrongParam, args: seq<Spec>, k: string)
    requires Valid(args)
    requires k in c.data && NestsUnder(args, k) && c.data[k].Obj?
    ensures Permit(c, args).Ok? && Permit(StrongParam(c.data[k].fields), SubArgs(args, k)).Ok?
    ensures k in Permit(c, args).value.data
    ensures Permit(c, args).value.data[k] ==
            Obj(Permit(StrongParam(c.data[k].fields), SubArgs(args, k)).value.data)
  {
    NormalizeNested(args, k);
    assert SubArgs(args, k) == Normalize(args).nested[k];
    assert FirstError(SubArgs(args, k)) == None;
  }

  /** Nested filtering at every depth: under a key that has nested
      arguments and holds a mapping, the result of `except` keeps the key
      and holds the result of `except` on that sub-mapping with the
      sub-arguments for the key. */
  lemma ExceptDescends(c: StrongParam, args: seq<Spec>, k: string)
    requires Valid(args)
    requires k in c.data && NestsUnder(args, k) && c.data[k].Obj?
    ensures Except(c, args).Ok? && Except(StrongParam(c.data[k].fields), SubArgs(args, k)).Ok?
    ensures k in Except(c, args).value.data
    ensures Except(c, args).value.data[k] ==
            Obj(Except(StrongParam(c.data[k].fields), SubArgs(args, k)).value.data)
  {
    NormalizeNested(args, k);
    assert SubArgs(args, k) == Normalize(args).nested[k];
    assert FirstError(SubArgs(args, k)) == None;
  }

  /** `NormalizeAdmits` and `NormalizeNested` for every key at once. */
  lemma NormalizeMeaning(specs: seq<Spec>)
    requires Valid(specs)
    ensures forall k :: Admits(Normalize(specs), k) <==> NamedBy(specs, k)
    ensures forall k :: k in Normalize(specs).nested <==> NestsUnder(specs, k)
  {
    forall k ensures Admits(Normalize(specs), k) <==> NamedBy(specs, k) {
      NormalizeAdmits(specs, k);
    }
    forall k ensures k in Normalize(specs).nested <==> NestsUnder(specs, k) {
      NormalizeNested(specs, k);
    }
  }

  // ---------------------------------------------------------------------
  // Properties of the entry points

  /** `except()` with no arguments returns the mapping unchanged, and
      `permit()` with none returns the empty mapping. */
  lemma NoArguments(c: StrongParam)
    ensures Except(c, []) == Ok(c)
    ensures Permit(c, []) == Ok(StrongParam(map[]))
  {
    assert Valid([]);
    var e := Except(c, []).value.data;
    forall k ensures (k in e <==> k in c.data) && (k in e ==> e[k] == c.data[k]) {
      assert !NamedBy([], k) && !NestsUnder([], k);
    }
    SameMap(e, c.data);
  }

  /** The argument list made of the given strings. */
  function Keys(ks: seq<string>): (specs: seq<Spec>)
    ensures |specs| == |ks|
    ensures forall i | 0 <= i < |ks| :: specs[i] == Key(ks[i])
  {
    if ks == [] then [] else [Key(ks[0])] + Keys(ks[1..])
  }

  /** Key names name exactly themselves. */
  lemma LiteralKeysName(ks: seq<string>, k: string)
    requires forall i | 0 <= i < |ks| :: IsKeyName(ks[i])
    ensures Valid(Keys(ks))
    ensures NamedBy(Keys(ks), k) <==> k in ks
    ensures !NestsUnder(Keys(ks), k)
  {
    var specs := Keys(ks);
    forall i | 0 <= i < |ks| ensures Names(specs[i], k) <==> k == ks[i] {
      assert specs[i] == Key(ks[i]);
    }
  }

  /** `permit` with key names is the restriction of the mapping to those
      keys. */
  lemma PermitLiterals(c: StrongParam, ks: seq<string>)
    requires forall i | 0 <= i < |ks| :: IsKeyName(ks[i])
    ensures Permit(c, Keys(ks)) == Ok(StrongParam(map k | k in c.data && k in ks :: c.data[k]))
  {
    var specs := Keys(ks);
    LiteralKeysName(ks, "");
    var r := Permit(c, specs).value.data;
    var want := map k | k in c.data && k in ks :: c.data[k];
    forall k ensures (k in r <==> k in want) && (k in r ==> r[k] == want[k]) {
      LiteralKeysName(ks, k);
    }
    SameMap(r, want);
  }

  /** `except` with key names removes exactly those keys, at the top
      level only. */
  lemma ExceptLiterals(c: StrongParam, ks: seq<string>)
    requires forall i | 0 <= i < |ks| :: IsKeyName(ks[i])
    ensures Except(c, Keys(ks)) == Ok(StrongParam(c.data - set k | k in ks))
  {
    var specs := Keys(ks);
    LiteralKeysName(ks, "");
    var r := Except(c, specs).value.data;
    var want := c.data - set k | k in ks;
    forall k ensures (k in r <==> k in want) && (k in r ==> r[k] == want[k]) {
      LiteralKeysName(ks, k);
    }
    SameMap(r, want);
  }

  /** `except` with one key name removes that key. */
  lemma ExceptOneKey(c: StrongParam, t: string)
    requires IsKeyName(t)
    ensures Except(c, [Key(t)]) == Ok(StrongParam(c.data - {t}))
  {
    ExceptLiterals(c, [t]);
    assert Keys([t]) == [Key(t)];
    assert (set k | k in [t]) == {t};
  }

  /** Without nested arguments, `permit` and `except` with the same
      arguments split the mapping: each key lands on exactly one side,
      with its value. */
  lemma PermitExceptComplement(c: StrongParam, args: seq<Spec>)
    requires Valid(args)
    requires forall i | 0 <= i < |args| :: args[i].Key?
    ensures Permit(c, args).value.data.Keys !! Except(c, args).value.data.Keys
    ensures Permit(c, args).value.data + Except(c, args).value.data == c.data
  {
    var n := Normalize(args);
    forall k ensures k !in n.nested {
      NormalizeNested(args, k);
    }
    assert n.nested == map[];
    PermitExceptPartition(c.data, n);
  }

  /** Several arguments name the union of what each names. */
  lemma PermitUnion(c: StrongParam, a: seq<Spec>, b: seq<Spec>, k: string)
    requires Valid(a) && Valid(b)
    ensures Valid(a + b)
    ensures k in Permit(c, a + b).value.data <==>
            k in Permit(c, a).value.data || k in Permit(c, b).value.data
  {
    ValidAppend(a, b);
    if NamedBy(a + b, k) {
      var i :| 0 <= i < |a + b| && Names((a + b)[i], k);
      if i < |a| { assert Names(a[i], k); } else { assert Names(b[i - |a|], k); }
    }
    if NamedBy(a, k) {
      var i :| 0 <= i < |a| && Names(a[i], k);
      assert Names((a + b)[i], k);
    }
    if NamedBy(b, k) {
      var i :| 0 <= i < |b| && Names(b[i], k);
      assert Names((a + b)[|a| + i], k);
    }
  }

  /** Re-permitting a permitted container changes nothing. */
  lemma PermitTwice(c: StrongParam, args: seq<Spec>)
    requires Valid(args)
    ensures Permit(Permit(c, args).value, args) == Permit(c, args)
  {
    PermitIdempotent(c.data, Normalize(args));
  }

  /** Re-excepting an excepted container changes nothing. */
  lemma ExceptTwice(c: StrongParam, args: seq<Spec>)
    requires Valid(args)
    ensures Except(Except(c, args).value, args) == Except(c, args)
  {
    ExceptIdempotent(c.data, Normalize(args));
  }

  /** `permit({q: sub})` keeps only `q`, with its sub-mapping permitted by
      `sub` (a value under `q` that is not a mapping is kept whole). */
  lemma PermitNested(c: StrongParam, q: string, sub: seq<Spec>)
    requires Valid(sub)
    ensures Valid([Nested(q, sub)])
    ensures Permit(c, [Nested(q, sub)]) ==
            Ok(StrongParam(
              if q !in c.data then map[]
              else if c.data[q].Obj? then map[q := Obj(PermitFields(c.data[q].fields, Normalize(sub)))]
              else map[q := c.data[q]]))
  {
    NestedSingle(q, sub);
    PermitOneNested(c.data, q, sub);
  }

  lemma PermitOneNested(m: map<string, Value>, q: string, sub: seq<Spec>)
    requires Valid(sub)
    ensures PermitFields(m, Normalized([Escape(q)], map[q := sub])) ==
            if q !in m then map[]
            else if m[q].Obj? then map[q := Obj(PermitFields(m[q].fields, Normalize(sub)))]
            else map[q := m[q]]
  {
    var n := Normalized([Escape(q)], map[q := sub]);
    var r := PermitFields(m, n);
    var want :=
      if q !in m then map[]
      else if m[q].Obj? then map[q := Obj(PermitFields(m[q].fields, Normalize(sub)))]
      else map[q := m[q]];
    forall k ensures (k in r <==> k in want) && (k in r ==> r[k] == want[k]) {
      EscapeExact(q, k);
      assert Admits(n, k) <==> Matches(n.matchers[0], k);
    }
    SameMap(r, want);
  }

  /** `except({q: sub})` keeps every key, `q` included, and only filters
      the sub-mapping under `q` by `sub`. */
  lemma ExceptNested(c: StrongParam, q: string, sub: seq<Spec>)
    requires Valid(sub)
    ensures Valid([Nested(q, sub)])
    ensures Except(c, [Nested(q, sub)]) ==
            Ok(StrongParam(
              if q in c.data && c.data[q].Obj?
              then c.data[q := Obj(ExceptFields(c.data[q].fields, Normalize(sub)))]
              else c.data))
  {
    NestedSingle(q, sub);
    ExceptOneNested(c.data, q, sub);
  }

  lemma ExceptOneNested(m: map<string, Value>, q: string, sub: seq<Spec>)
    requires Valid(sub)
    ensures ExceptFields(m, Normalized([Escape(q)], map[q := sub])) ==
            if q in m && m[q].Obj? then m[q := Obj(ExceptFields(m[q].fields, Normalize(sub)))] else m
  {
    var n := Normalized([Escape(q)], map[q := sub]);
    var r := ExceptFields(m, n);
    var want := if q in m && m[q].Obj? then m[q := Obj(ExceptFields(m[q].fields, Normalize(sub)))] else m;
    forall k ensures (k in r <==> k in want) && (k in r ==> r[k] == want[k]) {
      EscapeExact(q, k);
      assert Admits(n, k) <==> Matches(n.matchers[0], k);
    }
    SameMap(r, want);
  }

  /** The normal form of a single nested argument. */
  lemma NestedSingle(q: string, sub: seq<Spec>)
    requires Valid(sub)
    ensures Valid([Nested(q, sub)])
    ensures Normalize([Nested(q, sub)]) == Normalized([Escape(q)], map[q := sub])
  {
    var args := [Nested(q, sub)];
    assert ValidSpec(args[0]);
    assert args[1..] == [];
    assert sub + [] == sub;
  }
}
