/** The values a request parameter can hold.

    Only one distinction matters to the filter: whether a value is a
    key-value mapping (`Obj`) or not.  Arrays are kept as a separate
    constructor so that the model can state that they pass through
    untouched; every other JavaScript value (null, booleans, Infinity,
    functions, ...) is the opaque `Other`. */
module Values {

  datatype Value =
    | Str(s: string)
    | Num(n: int)
    | Arr(items: seq<Value>)
    | Obj(fields: map<string, Value>)
    | Other

  /** `r` is `m` with some keys dropped, at any depth: every key of `r`
      is a key of `m`, and its value is either the same value or, where
      both are mappings, again such a pruning.  This is the shape of every
      result of `permit` and `except`: they remove keys and never invent
      or change a value. */
  ghost predicate Pruned(r: map<string, Value>, m: map<string, Value>)
    decreases Obj(m)
  {
    forall k | k in r ::
      k in m &&
      (r[k] == m[k] ||
       (r[k].Obj? && m[k].Obj? && Pruned(r[k].fields, m[k].fields)))
  }

  /** Two mappings with the same keys and the same value under each key
      are equal. */
  lemma SameMap(a: map<string, Value>, b: map<string, Value>)
    requires forall k :: (k in a <==> k in b) && (k in a ==> a[k] == b[k])
    ensures a == b
  {
  }
}
