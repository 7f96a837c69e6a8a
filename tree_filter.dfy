/** The tree filter: applies a normalised argument list to a parameter
    mapping, keeping (`permit`) or dropping (`except`) the keys it names,
    and descending into the sub-mapping of every key that has nested
    arguments.  Values are never changed, only pruned; a nested argument
    list on a value that is not a mapping (a string, a number, an array)
    does nothing to it. */
module TreeFilter {
  import opened Values
  import opened Patterns
  import opened FilterSpec

  /** Allow-list: only the admitted keys stay. */
  function PermitFields(m: map<string, Value>, n: Normalized): (r: map<string, Value>)
    requires NestedValid(n)
    ensures forall k :: k in r <==> k in m && Admits(n, k)
    ensures forall k | k in r && !(k in n.nested && m[k].Obj?) :: r[k] == m[k]
    ensures forall k | k in r && k in n.nested && m[k].Obj? ::
              r[k].Obj? &&
              forall k2 :: k2 in r[k].fields <==>
                k2 in m[k].fields && Admits(Normalize(n.nested[k]), k2)
    ensures forall k | k in r && k in n.nested && m[k].Obj? ::
              r[k] == Obj(PermitFields(m[k].fields, Normalize(n.nested[k])))
    ensures Pruned(r, m)
    decreases Obj(m)
  {
    map k | k in m && Admits(n, k) ::
      if k in n.nested && m[k].Obj?
      then Obj(PermitFields(m[k].fields, Normalize(n.nested[k])))
      else m[k]
  }

  /** Deny-list: an admitted key is dropped unless it has nested
      arguments; a key with nested arguments stays, and its sub-mapping is
      filtered in turn. */
  function ExceptFields(m: map<string, Value>, n: Normalized): (r: map<string, Value>)
    requires NestedValid(n)
    ensures forall k :: k in r <==> k in m && (!Admits(n, k) || k in n.nested)
    ensures forall k | k in r && !(k in n.nested && m[k].Obj?) :: r[k] == m[k]
    ensures forall k | k in r && k in n.nested && m[k].Obj? ::
              r[k].Obj? &&
              forall k2 :: k2 in r[k].fields <==>
                k2 in m[k].fields && (!Admits(Normalize(n.nested[k]), k2) || k2 in Normalize(n.nested[k]).nested)
    ensures forall k | k in r && k in n.nested && m[k].Obj? ::
              r[k] == Obj(ExceptFields(m[k].fields, Normalize(n.nested[k])))
    ensures Pruned(r, m)
    decreases Obj(m)
  {
    map k | k in m && (!Admits(n, k) || k in n.nested) ::
      if k in n.nested && m[k].Obj?
      then Obj(ExceptFields(m[k].fields, Normalize(n.nested[k])))
      else m[k]
  }

  /** Permitting twice is permitting once. */
  lemma {:induction false} PermitIdempotent(m: map<string, Value>, n: Normalized)
    requires NestedValid(n)
    ensures PermitFields(PermitFields(m, n), n) == PermitFields(m, n)
    decreases Obj(m)
  {
    var r := PermitFields(m, n);
    var rr := PermitFields(r, n);
    forall k | k in rr
      ensures rr[k] == r[k]
    {
      if k in n.nested && m[k].Obj? {
        var sub := Normalize(n.nested[k]);
        PermitIdempotent(m[k].fields, sub);
        assert r[k] == Obj(PermitFields(m[k].fields, sub));
        assert rr[k] == Obj(PermitFields(r[k].fields, sub));
      }
    }
    SameMap(rr, r);
  }

  /** Excepting twice is excepting once. */
  lemma {:induction false} ExceptIdempotent(m: map<string, Value>, n: Normalized)
    requires NestedValid(n)
    ensures ExceptFields(ExceptFields(m, n), n) == ExceptFields(m, n)
    decreases Obj(m)
  {
    var r := ExceptFields(m, n);
    var rr := ExceptFields(r, n);
    forall k | k in rr
      ensures rr[k] == r[k]
    {
      if k in n.nested && m[k].Obj? {
        var sub := Normalize(n.nested[k]);
        ExceptIdempotent(m[k].fields, sub);
        assert r[k] == Obj(ExceptFields(m[k].fields, sub));
        assert rr[k] == Obj(ExceptFields(r[k].fields, sub));
      }
    }
    SameMap(rr, r);
  }

  /** Without nested arguments, permit and except split a mapping in two:
      every key goes to exactly one side, with its value. */
  lemma PermitExceptPartition(m: map<string, Value>, n: Normalized)
    requires n.nested == map[]
    ensures PermitFields(m, n).Keys !! ExceptFields(m, n).Keys
    ensures PermitFields(m, n) + ExceptFields(m, n) == m
  {
  }
}
