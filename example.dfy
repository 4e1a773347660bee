/** The table `serve-with-cookies.js` builds at startup, and what requests against it resolve to. */
module Example {
  import opened Wrappers
  import opened Rewrites
  import opened Proxy
  import opened Cookies

  /** `{a: pathA, b: pathB}`. */
  function AB(pathA: Path, pathB: Path): (c: Config)
    ensures Lookup(c, "a") == Some(pathA) && Lookup(c, "b") == Some(pathB)
    ensures Values(c) == [pathA, pathB]
  {
    [("a", pathA), ("b", pathB)]
  }

  const HELLO_WORLD: Config := AB("/hello-world/variant-a/", "/hello-world/variant-b/")
  const PAGE_DATA: Config :=
    AB("/page-data/hello-world/variant-a/page-data.json", "/page-data/hello-world/variant-b/page-data.json")

  /** The object literal passed to `createRewritesForVariants`, as its entries. */
  const LITERAL: Entries := [("/hello-world/", HELLO_WORLD), ("/page-data/hello-world/page-data.json", PAGE_DATA)]

  /** The six keys of the expanded dictionary, in insertion order. */
  const EXPANDED_KEYS: seq<Path> := [
    "/hello-world/", "/page-data/hello-world/page-data.json",
    "/hello-world/variant-a/", "/hello-world/variant-b/",
    "/page-data/hello-world/variant-a/page-data.json", "/page-data/hello-world/variant-b/page-data.json"
  ]

  function LiteralTable(): map<Path, Config> {
    map["/hello-world/" := HELLO_WORLD, "/page-data/hello-world/page-data.json" := PAGE_DATA]
  }

  /** Every page path maps to the hello-world config, every page-data path to the page-data config (listed in insertion order). */
  function ExpandedTable(): map<Path, Config> {
    map[
      "/hello-world/" := HELLO_WORLD,
      "/page-data/hello-world/page-data.json" := PAGE_DATA,
      "/hello-world/variant-a/" := HELLO_WORLD,
      "/hello-world/variant-b/" := HELLO_WORLD,
      "/page-data/hello-world/variant-a/page-data.json" := PAGE_DATA,
      "/page-data/hello-world/variant-b/page-data.json" := PAGE_DATA
    ]
  }

  lemma RegisterTwo(m: map<Path, Config>, x: Path, y: Path, c: Config)
    ensures Register(m, [x, y], c) == m[x := c][y := c]
  {
    assert [x, y][..1] == [x] && [x][..0] == [];
    assert Register(m, [x], c) == Register(m, [], c)[x := c];
  }

  lemma AddKeysTwo(keys: seq<Path>, x: Path, y: Path)
    requires x !in keys && y !in keys && x != y
    ensures AddKeys(keys, [x, y]) == keys + [x, y]
  {
    assert [x, y][..1] == [x] && [x][..0] == [];
    assert AddKeys(keys, [x]) == AddKey(AddKeys(keys, []), x) == keys + [x];
  }

  /** Expanding the literal yields the symmetric six-key table. */
  lemma LiteralExpansion()
    ensures Expand(LITERAL, LiteralTable()) == ExpandedTable()
  {
    var a1, b1 := "/hello-world/variant-a/", "/hello-world/variant-b/";
    var a2, b2 := "/page-data/hello-world/variant-a/page-data.json", "/page-data/hello-world/variant-b/page-data.json";
    var m := LiteralTable();
    assert LITERAL[..1][..0] == [] && LITERAL[..1][0].1 == HELLO_WORLD;
    var first: map<Path, Config> := Expand(LITERAL[..1], m);
    assert Values(HELLO_WORLD) == [a1, b1];
    assert Expand(LITERAL[..1][..0], m) == m;
    assert first == Register(m, [a1, b1], HELLO_WORLD);
    RegisterTwo(m, a1, b1, HELLO_WORLD);
    assert LITERAL[..|LITERAL| - 1] == LITERAL[..1];
    assert Expand(LITERAL, m) == Register(first, [a2, b2], PAGE_DATA);
    RegisterTwo(first, a2, b2, PAGE_DATA);
    assert a1[21] != b1[21] && a2[31] != b2[31];
  }

  /** The two canonical keys stay first, followed by the four variant paths in the order they are listed. */
  lemma LiteralKeyOrder()
    ensures ExpandOrder(LITERAL, [LITERAL[0].0, LITERAL[1].0]) == EXPANDED_KEYS
  {
    var a1, b1 := "/hello-world/variant-a/", "/hello-world/variant-b/";
    var a2, b2 := "/page-data/hello-world/variant-a/page-data.json", "/page-data/hello-world/variant-b/page-data.json";
    var keys := [LITERAL[0].0, LITERAL[1].0];
    assert LITERAL[..1][..0] == [] && LITERAL[..1][0].1 == HELLO_WORLD;
    assert ExpandOrder(LITERAL[..1], keys) == AddKeys(keys, [a1, b1]);
    assert a1[21] != b1[21] && a2[31] != b2[31];
    AddKeysTwo(keys, a1, b1);
    assert LITERAL[..|LITERAL| - 1] == LITERAL[..1];
    assert ExpandOrder(LITERAL, keys) == AddKeys(keys + [a1, b1], [a2, b2]);
    AddKeysTwo(keys + [a1, b1], a2, b2);
  }

  /**
   * The literal meets the builder's input constraint, so the symmetry of the
   * expanded table holds for it.
   */
  lemma LiteralIsDisjoint()
    ensures SnapshotOf(LITERAL, LiteralTable()) && Disjoint(LITERAL)
    ensures forall i, to :: 0 <= i < |LITERAL| && to in Values(LITERAL[i].1) ==>
      var table := Expand(LITERAL, LiteralTable());
      to in table && LITERAL[i].0 in table && table[to] == table[LITERAL[i].0]
  {
    LiteralMeetsConstraint();
    ExpandSymmetric(LITERAL, LiteralTable());
  }

  lemma LiteralMeetsConstraint()
    ensures SnapshotOf(LITERAL, LiteralTable()) && Disjoint(LITERAL)
  {
    var a1, b1 := "/hello-world/variant-a/", "/hello-world/variant-b/";
    var a2, b2 := "/page-data/hello-world/variant-a/page-data.json", "/page-data/hello-world/variant-b/page-data.json";
    assert Values(LITERAL[0].1) == [a1, b1] && Values(LITERAL[1].1) == [a2, b2];
    assert |LITERAL[0].0| == 13 && |LITERAL[1].0| == 37;
    assert |a1| == |b1| == 23 && |a2| == |b2| == 47;
    DisjointPair(LITERAL);
  }


  /** A two-entry snapshot meets the constraint when no path of one entry is listed by the other or names a canonical path. */
  lemma DisjointPair(s: Entries)
    requires |s| == 2
    requires forall to :: to in Values(s[0].1) ==> to !in Values(s[1].1)
    requires s[0].0 !in Values(s[0].1) && s[0].0 !in Values(s[1].1)
    requires s[1].0 !in Values(s[0].1) && s[1].0 !in Values(s[1].1)
    ensures Disjoint(s)
  {
  }



  /** The dictionary built at startup: the literal, then `createRewritesForVariants`. */
  method BuildDictionary() returns (d: Dictionary)
    ensures d.Valid() && d.keys == EXPANDED_KEYS && d.table == ExpandedTable()
  {
    d := new Dictionary();
    d.Set(LITERAL[0].0, LITERAL[0].1);
    d.Set(LITERAL[1].0, LITERAL[1].1);
    assert d.keys == [LITERAL[0].0, LITERAL[1].0];
    assert d.Snapshot() == LITERAL;
    assert d.table == LiteralTable();
    LiteralExpansion();
    LiteralKeyOrder();
    d := CreateRewritesForVariants(d);
  }

  /** A page-data request made under variant a's path but carrying cookie `b` goes to variant b's page data. */
  lemma CookieWinsOverRequestedVariant(coin: bool)
    ensures
      var req := Request("/page-data/hello-world/variant-a/page-data.json",
                         "/page-data/hello-world/variant-a/page-data.json", map["ab-test-variant" := "b"]);
      ResolvePath(ExpandedTable(), req, coin) == Resolution(Some("/page-data/hello-world/variant-b/page-data.json"), None)
  {
  }

  /** A request for a path outside the table, such as `/favicon.ico`, passes through with no cookie set. */
  lemma UnmappedPassesThrough(cookies: map<string, string>, coin: bool, headers: map<string, string>)
    ensures
      var r := ResolvePath(ExpandedTable(), Request("/favicon.ico", "/favicon.ico", cookies), coin);
      r.path == Some("/favicon.ico") && DecorateHeaders(headers, r.variant) == headers
  {
  }

  /** `/hello-world/` is a key of the startup table, holding the hello-world config. */
  lemma HelloWorldMapped()
    ensures "/hello-world/" in ExpandedTable() && ExpandedTable()["/hello-world/"] == HELLO_WORLD
  {
  }

  /** Without a cookie, `/hello-world/` goes to variant a's page with cookie `a` on heads, to variant b's with cookie `b` on tails. */
  lemma FreshHelloWorld(coin: bool, headers: map<string, string>)
    ensures
      var r := ResolvePath(ExpandedTable(), Request("/hello-world/", "/hello-world/", map[]), coin);
      var h := DecorateHeaders(headers, r.variant);
      && r.path == Some(if coin then "/hello-world/variant-a/" else "/hello-world/variant-b/")
      && SET_COOKIE in h
      && h[SET_COOKIE] == if coin then "ab-test-variant=a; Path=/" else "ab-test-variant=b; Path=/"
  {
    HelloWorldMapped();
    FreshHelloWorldIn(ExpandedTable(), coin, headers);
  }

  lemma FreshHelloWorldIn(table: map<Path, Config>, coin: bool, headers: map<string, string>)
    requires "/hello-world/" in table && table["/hello-world/"] == HELLO_WORLD
    ensures
      var r := ResolvePath(table, Request("/hello-world/", "/hello-world/", map[]), coin);
      var h := DecorateHeaders(headers, r.variant);
      && r.path == Some(if coin then "/hello-world/variant-a/" else "/hello-world/variant-b/")
      && SET_COOKIE in h
      && h[SET_COOKIE] == if coin then "ab-test-variant=a; Path=/" else "ab-test-variant=b; Path=/"
  {
    var r := ResolvePath(table, Request("/hello-world/", "/hello-world/", map[]), coin);
    assert r.variant == Some(if coin then "a" else "b");
    CookieHeaderValues();
  }

  /** The two headers the decorator can write, spelled out. */
  lemma CookieHeaderValues()
    ensures SetCookieHeader("a") == "ab-test-variant=a; Path=/"
    ensures SetCookieHeader("b") == "ab-test-variant=b; Path=/"
  {
  }



}
