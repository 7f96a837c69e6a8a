/** The behaviour the `StrongParam` test suite pins down, one lemma per
    scenario.  Each scenario is proved for every input that has the keys
    of the test's input, and the test's own input is shown to have them. */
module Scenarios {
  import opened Values
  import opened Patterns
  import opened FilterSpec
  import opened TreeFilter
  import opened StrongParams

  /** `{title, name, query: {name, task}}`, the input of the first five
      scenarios. */
  function Article(): map<string, Value>
  {
    map["title" := Str("Some Title"),
        "name" := Str("Some Name"),
        "query" := Obj(map["name" := Str("Tom Saywer"), "task" := Str("Paint Fence")])]
  }

  /** The keys of `Article()`: `title`, `name`, and a mapping `query`
      with `name` and `task`. */
  predicate ArticleShaped(m: map<string, Value>)
  {
    "title" in m && "name" in m && "query" in m && m["query"].Obj? &&
    "name" in m["query"].fields && "task" in m["query"].fields
  }

  lemma ArticleShape()
    ensures ArticleShaped(Article())
  {
    var q := Article()["query"];
    assert q == Obj(map["name" := Str("Tom Saywer"), "task" := Str("Paint Fence")]);
  }

  /** The query-operator input of the two pattern scenarios. */
  function Filters(): map<string, Value>
  {
    map["name__gte" := Num(7),
        "name__in" := Arr([Num(1), Num(2), Num(3)]),
        "name__like" := Str("hello"),
        "age" := Num(7),
        "hello" := Str("world")]
  }

  /** The keys of `Filters()`. */
  predicate FiltersShaped(m: map<string, Value>)
  {
    "name__gte" in m && "name__in" in m && "name__like" in m && "age" in m && "hello" in m
  }

  lemma FiltersShape()
    ensures FiltersShaped(Filters())
  {
  }

  /** A container built from a mapping holds its keys and values. */
  lemma ActsLikePlainObject(title: Value, name: Value)
    ensures var c := New(Obj(map["title" := title, "name" := name]));
            "title" in c.data && "name" in c.data &&
            c.data["name"] == name && c.data["title"] == title
  {
  }

  /** The argument `'name'` names the key `name` and nothing else. */
  lemma NameArgument(k: string)
    ensures Valid([Key("name")])
    ensures NamedBy([Key("name")], k) <==> k == "name"
    ensures !NestsUnder([Key("name")], k)
  {
    assert IsKeyName("name");
    assert Keys(["name"]) == [Key("name")];
    LiteralKeysName(["name"], k);
  }

  /** `except('name')` drops the top-level `name` only; `query`, and the
      `name` inside it, stay as they were. */
  lemma ExceptTopLevel(m: map<string, Value>)
    requires ArticleShaped(m)
    ensures var r := Except(New(Obj(m)), [Key("name")]);
            r.Ok? &&
            "title" in r.value.data && "name" !in r.value.data && "query" in r.value.data &&
            r.value.data["query"] == m["query"] &&
            "name" in r.value.data["query"].fields && "task" in r.value.data["query"].fields
  {
    NameArgument("title");
    NameArgument("name");
    NameArgument("query");
  }

  /** `except({query: ['name']})` keeps `query` and the other top-level
      keys, and removes only `name` inside `query`. */
  lemma ExceptSubLevel(m: map<string, Value>)
    requires ArticleShaped(m)
    ensures var r := Except(New(Obj(m)), [Nested("query", [Key("name")])]);
            r.Ok? &&
            "title" in r.value.data && "name" in r.value.data && "query" in r.value.data &&
            r.value.data["query"].Obj? &&
            "name" !in r.value.data["query"].fields && "task" in r.value.data["query"].fields
  {
    var c := New(Obj(m));
    NameArgument("name");
    NameArgument("task");
    ExceptNested(c, "query", [Key("name")]);
    var inner := ExceptFields(c.data["query"].fields, Normalize([Key("name")]));
    NormalizeAdmits([Key("name")], "name");
    NormalizeAdmits([Key("name")], "task");
    NormalizeNested([Key("name")], "name");
    NormalizeNested([Key("name")], "task");
    assert "name" !in inner && "task" in inner;
  }

  /** `permit('name')` keeps only `name`. */
  lemma PermitTopLevel(m: map<string, Value>)
    requires ArticleShaped(m)
    ensures var r := Permit(New(Obj(m)), [Key("name")]);
            r.Ok? &&
            "title" !in r.value.data && "name" in r.value.data && "query" !in r.value.data &&
            r.value.data["name"] == m["name"]
  {
    NameArgument("title");
    NameArgument("name");
    NameArgument("query");
  }

  /** `permit({query: ['name']})` keeps only `query`, and inside it only
      `name`. */
  lemma PermitSubLevel(m: map<string, Value>)
    requires ArticleShaped(m)
    ensures var r := Permit(New(Obj(m)), [Nested("query", [Key("name")])]);
            r.Ok? &&
            "title" !in r.value.data && "name" !in r.value.data && "query" in r.value.data &&
            r.value.data["query"].Obj? &&
            "name" in r.value.data["query"].fields && "task" !in r.value.data["query"].fields
  {
    var c := New(Obj(m));
    NameArgument("name");
    NameArgument("task");
    PermitNested(c, "query", [Key("name")]);
    var inner := PermitFields(c.data["query"].fields, Normalize([Key("name")]));
    NormalizeAdmits([Key("name")], "name");
    NormalizeAdmits([Key("name")], "task");
    assert "name" in inner && "task" !in inner;
  }

  /** Nested arguments apply at every depth: `permit({a: [{b: leaf}]})`
      on a mapping with a mapping under `a` and another under `b` inside
      it keeps only `a`, inside it only `b`, and inside that what `leaf`
      permits. */
  lemma PermitTwoLevels(m: map<string, Value>, a: string, b: string, leaf: seq<Spec>)
    requires a in m && m[a].Obj? && b in m[a].fields && m[a].fields[b].Obj?
    requires Valid(leaf)
    ensures Permit(New(Obj(m)), [Nested(a, [Nested(b, leaf)])]) ==
            Ok(StrongParam(map[a := Obj(map[b := Obj(PermitFields(m[a].fields[b].fields, Normalize(leaf)))])]))
  {
    NestedSingle(b, leaf);
    PermitOneNested(m[a].fields, b, leaf);
    PermitNested(New(Obj(m)), a, [Nested(b, leaf)]);
  }

  /** Permitting one key name `x` keeps `x` and drops any other key `y`;
      with `PermitTwoLevels`, `permit({a: [{b: [x]}]})` drops a sibling
      `y` of `x` two levels down. */
  lemma PermitOneKey(m: map<string, Value>, x: string, y: string)
    requires x in m && y in m
    requires IsKeyName(x) && y != x
    ensures var r := PermitFields(m, Normalize([Key(x)])); x in r && y !in r
  {
    assert Keys([x]) == [Key(x)];
    LiteralKeysName([x], x);
    LiteralKeysName([x], y);
    NormalizeAdmits([Key(x)], x);
    NormalizeAdmits([Key(x)], y);
  }

  /** An argument `t == pre*` with literal `pre` names exactly the keys
      that start with `pre`. */
  lemma StarArgument(pre: string, t: string, k: string)
    requires IsLiteral(pre) && t == pre + "*"
    ensures ValidSpec(Key(t))
    ensures Names(Key(t), k) <==> |pre| <= |k| && k[..|pre|] == pre
  {
    CompilePrefixStar(pre);
    assert t[|pre|] == '*';
    PrefixStar(pre, k);
  }

  /** The argument `'name*'` names exactly the keys that start with
      `name`. */
  lemma NameStarArgument(k: string)
    ensures Valid([Key("name*")])
    ensures NamedBy([Key("name*")], k) <==> |k| >= 4 && k[..4] == "name"
  {
    StarArgument("name", "name*", k);
    var args := [Key("name*")];
    assert args[0] == Key("name*");
  }

  /** `permit('name*')` keeps exactly the three `name__` keys. */
  lemma PermitStar(m: map<string, Value>)
    requires FiltersShaped(m)
    ensures var r := Permit(New(Obj(m)), [Key("name*")]);
            r.Ok? &&
            "name__gte" in r.value.data && "name__in" in r.value.data &&
            "name__like" in r.value.data &&
            "age" !in r.value.data && "hello" !in r.value.data
  {
    NameStarArgument("name__gte");
    NameStarArgument("name__in");
    NameStarArgument("name__like");
    NameStarArgument("age");
    NameStarArgument("hello");
  }

  /** An argument `t == pre(w1,w2)` with literal `pre` and words `w1`,
      `w2` names exactly `pre + w1` and `pre + w2`. */
  lemma GroupArgument(pre: string, w1: string, w2: string, t: string, x: string, y: string, k: string)
    requires IsLiteral(pre)
    requires IsWord(w1)
    requires IsWord(w2)
    requires t == pre + ("(" + w1 + "," + w2 + ")")
    requires x == pre + w1
    requires y == pre + w2
    ensures ValidSpec(Key(t))
    ensures Names(Key(t), k) <==> k == x || k == y
  {
    var opts, words := [LitGlob(w1), LitGlob(w2)], [w1, w2];
    CompilePrefixGroup(pre, w1, w2);
    assert t[|pre|] == '(';
    assert CompileKey(t) == Ok(Escape(pre) + [Group(opts)]);
    PrefixGroup(pre, words, opts, k);
    OneOfTwo(pre, w1, w2, k);
  }

  /** `k` is `pre` followed by one of two words exactly when it is
      `pre + w1` or `pre + w2`. */
  lemma OneOfTwo(pre: string, w1: string, w2: string, k: string)
    ensures (exists j | 0 <= j < |[w1, w2]| :: k == pre + [w1, w2][j]) <==>
            k == pre + w1 || k == pre + w2
  {
    var words := [w1, w2];
    if k == pre + w1 { assert k == pre + words[0]; }
    if k == pre + w2 { assert k == pre + words[1]; }
  }

  /** Two arguments that name `x`, `y` and `z` between them. */
  lemma TwoArguments(a: Spec, b: Spec, k: string, x: string, y: string, z: string)
    requires ValidSpec(a) && ValidSpec(b)
    requires Names(a, k) <==> k == x || k == y
    requires Names(b, k) <==> k == z
    ensures Valid([a, b])
    ensures NamedBy([a, b], k) <==> k == x || k == y || k == z
  {
    var args := [a, b];
    assert args[0] == a && args[1] == b;
  }

  /** A group argument `t == pre(w1,w2)` followed by a key name `h` name
      exactly `pre + w1`, `pre + w2` and `h`. */
  lemma GroupThenKey(pre: string, w1: string, w2: string, t: string, h: string, k: string)
    requires IsLiteral(pre)
    requires IsWord(w1)
    requires IsWord(w2)
    requires t == pre + ("(" + w1 + "," + w2 + ")")
    requires IsKeyName(h)
    ensures Valid([Key(t), Key(h)])
    ensures NamedBy([Key(t), Key(h)], k) <==> k == pre + w1 || k == pre + w2 || k == h
  {
    GroupArgument(pre, w1, w2, t, pre + w1, pre + w2, k);
    TwoArguments(Key(t), Key(h), k, pre + w1, pre + w2, h);
  }

  /** The arguments `'name__(gte,in)', 'hello'` name exactly `name__gte`,
      `name__in` and `hello`. */
  lemma AlternationArguments(k: string)
    ensures Valid([Key("name__(gte,in)"), Key("hello")])
    ensures NamedBy([Key("name__(gte,in)"), Key("hello")], k) <==>
            k == "name__gte" || k == "name__in" || k == "hello"
  {
    GroupThenKey("name__", "gte", "in", "name__(gte,in)", "hello", k);
  }

  /** `permit('name__(gte,in)', 'hello')` keeps `name__gte`, `name__in`
      and `hello`, but not `name__like` or `age`. */
  lemma PermitAlternation(m: map<string, Value>)
    requires FiltersShaped(m)
    ensures var r := Permit(New(Obj(m)), [Key("name__(gte,in)"), Key("hello")]);
            r.Ok? &&
            "name__gte" in r.value.data && "name__in" in r.value.data &&
            "name__like" !in r.value.data && "age" !in r.value.data &&
            "hello" in r.value.data
  {
    AlternationArguments("name__gte");
    AlternationArguments("name__in");
    AlternationArguments("name__like");
    AlternationArguments("age");
    AlternationArguments("hello");
  }

  /** null, Infinity, a string and a number all give an empty container. */
  lemma NonObjectInputs(s: string, n: int)
    ensures |New(Other).data| == 0
    ensures |New(Str(s)).data| == 0
    ensures |New(Num(n)).data| == 0
  {
  }

  /** A pattern string that does not compile makes both entry points
      fail with its error. */
  lemma KeyError(c: StrongParam, t: string, e: PatternError)
    requires CompileKey(t) == Err(e)
    ensures Permit(c, [Key(t)]) == Err(e)
    ensures Except(c, [Key(t)]) == Err(e)
  {
    assert SpecError(Key(t)) == Some(e);
    assert FirstError([Key(t)]) == Some(e);
  }

  /** The error of a later argument is reported when the earlier ones
      compile. */
  lemma SecondKeyError(c: StrongParam, a: string, t: string, e: PatternError)
    requires CompileKey(a).Ok?
    requires CompileKey(t) == Err(e)
    ensures Permit(c, [Key(a), Key(t)]) == Err(e)
    ensures Except(c, [Key(a), Key(t)]) == Err(e)
  {
    var args := [Key(a), Key(t)];
    assert args[1..] == [Key(t)];
    assert [Key(t)][1..] == [];
    assert FirstError([Key(t)]) == Some(e);
    assert FirstError(args) == FirstError(args[1..]);
  }

  /** An unclosed group, a nested group and a stray `)` are pattern
      errors, reported by both entry points before any filtering. */
  lemma MalformedPatterns(c: StrongParam)
    ensures Permit(c, [Key("name__(gte")]) == Err(UnclosedGroup)
    ensures Except(c, [Key("a(b(c))")]) == Err(NestedGroup)
    ensures Permit(c, [Key("hello"), Key("name*)")]) == Err(UnmatchedClose)
  {
    UnclosedGroupReported(c);
    NestedGroupReported(c);
    UnmatchedCloseReported(c);
  }

  lemma UnclosedGroupReported(c: StrongParam)
    ensures Permit(c, [Key("name__(gte")]) == Err(UnclosedGroup)
  {
    UnclosedGroupError();
    assert "name__(gte"[6] == '(';
    KeyError(c, "name__(gte", UnclosedGroup);
  }

  lemma NestedGroupReported(c: StrongParam)
    ensures Except(c, [Key("a(b(c))")]) == Err(NestedGroup)
  {
    NestedGroupError();
    assert "a(b(c))"[1] == '(';
    KeyError(c, "a(b(c))", NestedGroup);
  }

  lemma UnmatchedCloseReported(c: StrongParam)
    ensures Permit(c, [Key("hello"), Key("name*)")]) == Err(UnmatchedClose)
  {
    UnmatchedCloseError();
    assert IsKeyName("hello");
    SecondKeyError(c, "hello", "name*)", UnmatchedClose);
  }

  lemma UnclosedGroupError()
    ensures Compile("name__(gte") == Err(UnclosedGroup)
  {
    assert "name__(gte" == "name__" + "(gte";
    assert IsLiteral("name__");
    CompileLiteralPrefix("name__", "(gte");
    ParseGlobLiteral("gte", "");
    assert "gte" + "" == "gte";
    var s := "(gte";
    assert s[1..] == "gte";
  }

  lemma NestedGroupError()
    ensures Compile("a(b(c))") == Err(NestedGroup)
  {
    assert "a(b(c))" == "a" + "(b(c))";
    assert IsLiteral("a");
    CompileLiteralPrefix("a", "(b(c))");
    ParseGlobLiteral("b", "(c))");
    var s := "(b(c))";
    assert s[1..] == "b" + "(c))";
  }

  lemma UnmatchedCloseError()
    ensures Compile("name*)") == Err(UnmatchedClose)
  {
    assert "name*)" == "name" + "*)";
    assert IsLiteral("name");
    CompileLiteralPrefix("name", "*)");
    var s := "*)";
    assert s[0] == '*' && s[1..] == ")";
    assert Compile(")") == Err(UnmatchedClose);
  }

  /** A `)` in an argument without `*` or `(` is an ordinary character:
      `except('name)')` drops the key `name)` and nothing else. */
  lemma CloseInKeyName(c: StrongParam)
    ensures Except(c, [Key("name)")]) == Ok(StrongParam(c.data - {"name)"}))
  {
    ExceptOneKey(c, "name)");
  }
}
