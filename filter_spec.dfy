/** The arguments of `permit` and `except`, and their normal form.

    Each argument is either a string (a literal key or a pattern) or a
    one-key mapping `{key: [sub-arguments]}` that filters the sub-mapping
    under `key`.  Several arguments mean the union of what each names. */
module FilterSpec {
  import opened Patterns

  datatype Spec =
    | Key(text: string)                  // a key name or a pattern string
    | Nested(key: string, sub: seq<Spec>) // `{key: [sub...]}`

  datatype Option<T> = None | Some(value: T)

  /** Every pattern string in the argument tree compiles (key names
      always do). */
  predicate Valid(specs: seq<Spec>)
    decreases specs
  {
    forall i | 0 <= i < |specs| :: ValidSpec(specs[i])
  }

  predicate ValidSpec(sp: Spec)
    decreases sp
  {
    match sp
    case Key(t) => CompileKey(t).Ok?
    case Nested(_, sub) => Valid(sub)
  }

  /** The error reported for an argument tree: the error of the first
      argument, in reading order, that is not valid. */
  function FirstError(specs: seq<Spec>): (r: Option<PatternError>)
    ensures r.None? <==> Valid(specs)
    decreases specs
  {
    if specs == [] then None
    else if SpecError(specs[0]).Some? then SpecError(specs[0])
    else FirstError(specs[1..])
  }

  /** An error reported for an argument list is the error of an argument
      all of whose predecessors are valid. */
  lemma {:induction false} FirstErrorIsFirst(specs: seq<Spec>)
    ensures FirstError(specs).Some? ==>
      exists i | 0 <= i < |specs| ::
        Valid(specs[..i]) && SpecError(specs[i]) == FirstError(specs)
  {
    if specs == [] {
    } else if SpecError(specs[0]).Some? {
      assert specs[..0] == [];
    } else if FirstError(specs).Some? {
      FirstErrorIsFirst(specs[1..]);
      var j :| 0 <= j < |specs[1..]| && Valid(specs[1..][..j])
               && SpecError(specs[1..][j]) == FirstError(specs[1..]);
      assert specs[..j + 1] == [specs[0]] + specs[1..][..j];
    }
  }

  /** The error reported for one argument: a string's compile error, or
      the first error of a nested argument's sub-arguments. */
  function SpecError(sp: Spec): (r: Option<PatternError>)
    ensures r.None? <==> ValidSpec(sp)
    decreases sp
  {
    match sp
    case Key(t) => if CompileKey(t).Err? then Some(CompileKey(t).error) else None
    case Nested(_, sub) => FirstError(sub)
  }

  /** The keys one argument names at its own level: those its pattern
      matches, or the key of a nested argument. */
  predicate Names(sp: Spec, k: string)
  {
    match sp
    case Key(t) => CompileKey(t).Ok? && Matches(CompileKey(t).value, k)
    case Nested(q, _) => k == q
  }

  /** Some argument of the list names `k`. */
  predicate NamedBy(specs: seq<Spec>, k: string)
  {
    exists i | 0 <= i < |specs| :: Names(specs[i], k)
  }

  /** Some argument of the list is a nested argument for `k`. */
  predicate NestsUnder(specs: seq<Spec>, k: string)
  {
    exists i | 0 <= i < |specs| :: specs[i].Nested? && specs[i].key == k
  }

  /** The normal form of an argument list: the compiled matchers of its
      level, and for each key with nested arguments, those arguments (kept
      as written and normalised when the filter descends into them). */
  datatype Normalized = Normalized(matchers: seq<Pattern>, nested: map<string, seq<Spec>>)

  predicate Admits(n: Normalized, k: string)
  {
    exists i | 0 <= i < |n.matchers| :: Matches(n.matchers[i], k)
  }

  /** The nested argument lists of a normal form are valid, so the filter
      can normalise them in turn. */
  predicate NestedValid(n: Normalized)
  {
    forall k | k in n.nested :: Valid(n.nested[k])
  }

  /** Normalises a valid argument list.  A string becomes a matcher; a
      nested argument `{q: sub}` becomes the literal matcher for `q` and
      contributes `sub` to the nested arguments of `q` (nested arguments
      for the same key add up). */
  function Normalize(specs: seq<Spec>): (n: Normalized)
    requires Valid(specs)
    ensures NestedValid(n)
    ensures |n.matchers| == |specs|
    decreases specs
  {
    if specs == [] then Normalized([], map[])
    else
      ValidParts(specs);
      var n := Normalize(specs[1..]);
      match specs[0]
      case Key(t) => Normalized([CompileKey(t).value] + n.matchers, n.nested)
      case Nested(q, sub) =>
        var prior := if q in n.nested then n.nested[q] else [];
        ValidAppend(sub, prior);
        Normalized([Escape(q)] + n.matchers, n.nested[q := sub + prior])
  }

  /** The sub-arguments that apply under key `k`: those of every nested
      argument for `k`, one after the other (none when there is no such
      argument). */
  function SubArgs(specs: seq<Spec>, k: string): (sub: seq<Spec>)
    requires Valid(specs)
    ensures Valid(sub)
    ensures forall x :: x in sub <==>
              exists i | 0 <= i < |specs| :: specs[i].Nested? && specs[i].key == k && x in specs[i].sub
  {
    SubArgsMembers(specs, k);
    if k in Normalize(specs).nested then Normalize(specs).nested[k] else []
  }

  lemma SubArgsMembers(specs: seq<Spec>, k: string)
    requires Valid(specs)
    ensures k in Normalize(specs).nested ==>
              forall x :: x in Normalize(specs).nested[k] <==>
                exists i | 0 <= i < |specs| :: specs[i].Nested? && specs[i].key == k && x in specs[i].sub
    ensures k !in Normalize(specs).nested ==>
              forall i | 0 <= i < |specs| :: !(specs[i].Nested? && specs[i].key == k)
  {
    NormalizeNested(specs, k);
    if k in Normalize(specs).nested {
      forall x ensures x in Normalize(specs).nested[k] <==>
          exists i | 0 <= i < |specs| :: specs[i].Nested? && specs[i].key == k && x in specs[i].sub
      {
        NormalizeNestedArgs(specs, k, x);
      }
    }
  }

  lemma ValidParts(specs: seq<Spec>)
    requires Valid(specs) && specs != []
    ensures ValidSpec(specs[0]) && Valid(specs[1..])
  {
    forall i | 0 <= i < |specs[1..]| ensures ValidSpec(specs[1..][i]) {
      assert specs[1..][i] == specs[i + 1];
    }
  }

  lemma ValidAppend(a: seq<Spec>, b: seq<Spec>)
    requires Valid(a) && Valid(b)
    ensures Valid(a + b)
  {
    forall i | 0 <= i < |a + b| ensures ValidSpec((a + b)[i]) {
      if i >= |a| { assert (a + b)[i] == b[i - |a|]; }
    }
  }

  /** The normal form admits exactly the keys some argument names. */
  lemma {:induction false} NormalizeAdmits(specs: seq<Spec>, k: string)
    requires Valid(specs)
    ensures Admits(Normalize(specs), k) <==> NamedBy(specs, k)
    decreases specs
  {
    if specs != [] {
      var n, tail := Normalize(specs), Normalize(specs[1..]);
      NormalizeAdmits(specs[1..], k);
      assert n.matchers[1..] == tail.matchers;
      assert NamedBy(specs, k) <==> Names(specs[0], k) || NamedBy(specs[1..], k) by {
        if NamedBy(specs, k) && !Names(specs[0], k) {
          var i :| 0 <= i < |specs| && Names(specs[i], k);
          assert Names(specs[1..][i - 1], k);
        }
        if NamedBy(specs[1..], k) {
          var i :| 0 <= i < |specs[1..]| && Names(specs[1..][i], k);
          assert Names(specs[i + 1], k);
        }
      }
      assert Admits(n, k) <==> Matches(n.matchers[0], k) || Admits(tail, k) by {
        if Admits(n, k) && !Matches(n.matchers[0], k) {
          var i :| 0 <= i < |n.matchers| && Matches(n.matchers[i], k);
          assert Matches(tail.matchers[i - 1], k);
        }
        if Admits(tail, k) {
          var i :| 0 <= i < |tail.matchers| && Matches(tail.matchers[i], k);
          assert Matches(n.matchers[i + 1], k);
        }
      }
      match specs[0]
      case Key(t) =>
      case Nested(q, _) => EscapeExact(q, k);
    }
  }

  /** Exactly the keys of nested arguments have nested argument lists,
      and each is admitted at its own level: a nested argument never
      drops its own key. */
  lemma {:induction false} NormalizeNested(specs: seq<Spec>, k: string)
    requires Valid(specs)
    ensures k in Normalize(specs).nested <==> NestsUnder(specs, k)
    ensures k in Normalize(specs).nested ==> Admits(Normalize(specs), k)
    decreases specs
  {
    if specs != [] {
      NormalizeNested(specs[1..], k);
      assert NestsUnder(specs, k) <==>
             (specs[0].Nested? && specs[0].key == k) || NestsUnder(specs[1..], k) by {
        if NestsUnder(specs, k) && !(specs[0].Nested? && specs[0].key == k) {
          var i :| 0 <= i < |specs| && specs[i].Nested? && specs[i].key == k;
          assert specs[1..][i - 1] == specs[i];
        }
        if NestsUnder(specs[1..], k) {
          var i :| 0 <= i < |specs[1..]| && specs[1..][i].Nested? && specs[1..][i].key == k;
          assert specs[i + 1] == specs[1..][i];
        }
      }
      if k in Normalize(specs).nested {
        assert NestsUnder(specs, k);
        var i :| 0 <= i < |specs| && specs[i].Nested? && specs[i].key == k;
        assert Names(specs[i], k);
        NormalizeAdmits(specs, k);
      }
    }
  }

  /** The nested arguments collected for `k` are exactly the
      sub-arguments of all nested arguments for `k`. */
  lemma {:induction false} NormalizeNestedArgs(specs: seq<Spec>, k: string, x: Spec)
    requires Valid(specs)
    requires k in Normalize(specs).nested
    ensures x in Normalize(specs).nested[k] <==>
            exists i | 0 <= i < |specs| :: specs[i].Nested? && specs[i].key == k && x in specs[i].sub
    decreases specs
  {
    var n, tail := Normalize(specs), Normalize(specs[1..]);
    var inTail := exists i | 0 <= i < |specs[1..]| ::
      specs[1..][i].Nested? && specs[1..][i].key == k && x in specs[1..][i].sub;
    if k in tail.nested {
      NormalizeNestedArgs(specs[1..], k, x);
    } else {
      NormalizeNested(specs[1..], k);
    }
    if exists i | 0 <= i < |specs| :: specs[i].Nested? && specs[i].key == k && x in specs[i].sub {
      var i :| 0 <= i < |specs| && specs[i].Nested? && specs[i].key == k && x in specs[i].sub;
      if i > 0 { assert specs[1..][i - 1] == specs[i]; }
    }
    if inTail {
      var i :| 0 <= i < |specs[1..]| &&
               specs[1..][i].Nested? && specs[1..][i].key == k && x in specs[1..][i].sub;
      assert specs[i + 1] == specs[1..][i];
    }
  }
}
