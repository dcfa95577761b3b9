/**
 * The dotted-key store of the exporter (`DictX` and its subclass `Config`):
 * a flat map from str keys to str values in which a key such as
 * `interfaces.2.wireless.busy` encodes a nested location.
 *
 * Looking a key up never fails (a missing key gives the sub-store below it),
 * iterating treats keys `0.…` or `1.…` as an array, `change` fans a structured
 * value out into dotted keys, and the store renders as sorted `key=value` lines.
 */
module DottedStore {
  import opened Wrappers
  import opened Text

  type Store = map<string, string>

  /** The values `Config.change` accepts; `Other` is any other Python type. */
  datatype Val =
    | Str(s: string)
    | Bool(b: bool)
    | Int(n: int)
    | Dict(items: seq<Field>)
    | Other

  /** One `subkey: value` pair of a dict, in the dict's order. */
  datatype Field = Field(name: string, value: Val)

  /** What `self[key]` gives: the stored string, or the sub-store of a missing key. */
  datatype Entry = Leaf(value: string) | Node(sub: Store)

  // ---------------------------------------------------------------------
  // Lookup
  // ---------------------------------------------------------------------

  /**
   * `Config.__missing__`: every entry whose key starts with `key + "."`,
   * with that prefix removed.
   */
  function Missing(m: Store, key: string): (r: Store)
    ensures forall k :: k in r <==> key + "." + k in m
    ensures forall k :: k in r ==> r[k] == m[key + "." + k]
  {
    var p := key + ".";
    var below := set k | k in m && StartsWith(k, p) :: k[|p|..];
    assert forall k :: k in m && StartsWith(k, p) ==> k == p + k[|p|..];
    map k | k in below :: m[p + k]
  }

  /** `self[key]` on a Config: the value when the key is stored, else `__missing__`. */
  function Get(m: Store, key: string): (r: Entry)
    ensures key in m ==> r == Leaf(m[key])
    ensures key !in m ==> r.Node? && forall k :: k in r.sub <==> key + "." + k in m
  {
    if key in m then Leaf(m[key]) else Node(Missing(m, key))
  }

  /** `key.(p.k)` and `(key.p).k` are the same dotted key. */
  lemma DottedAssoc(key: string, p: string, k: string)
    ensures key + "." + (p + "." + k) == (key + "." + p) + "." + k
  {
  }

  /** The sub-store of `p` in the sub-store of `key` is the sub-store of `key.p`. */
  lemma MissingTwice(m: Store, key: string, p: string)
    ensures Missing(Missing(m, key), p) == Missing(m, key + "." + p)
  {
    var a, b := Missing(Missing(m, key), p), Missing(m, key + "." + p);
    forall k
      ensures k in a <==> k in b
      ensures k in a ==> a[k] == b[k]
    {
      DottedAssoc(key, p, k);
    }
  }

  /**
   * Chained lookup: when `key` is not stored, `self[key][p]` is
   * `self[key + "." + p]`, whether that is a stored value or a sub-store.
   */
  lemma GetChained(m: Store, key: string, p: string)
    requires key !in m
    ensures Get(Get(m, key).sub, p) == Get(m, key + "." + p)
  {
    MissingTwice(m, key, p);
  }

  /** A missing key's sub-store is empty exactly when no stored key lies below it. */
  lemma MissingEmpty(m: Store, key: string)
    ensures Missing(m, key) == map[] <==> forall k :: k in m ==> !StartsWith(k, key + ".")
  {
    var p := key + ".";
    forall k | k in m && StartsWith(k, p)
      ensures k[|p|..] in Missing(m, key)
    {
      assert k == p + k[|p|..];
    }
    if Missing(m, key) != map[] {
      var j :| j in Missing(m, key);
      assert StartsWith(key + "." + j, key + ".");
    }
  }

  /** A string whose `i`-th character differs from the prefix's does not start with it. */
  lemma NotStartsWith(s: string, prefix: string, i: nat)
    requires i < |s| && i < |prefix| && s[i] != prefix[i]
    ensures !StartsWith(s, prefix)
  {
  }

  /** `p + j == k` exactly when `k` starts with `p` and `j` is the rest of `k`. */
  lemma ConcatSplit(p: string, j: string, k: string)
    ensures p + j == k <==> StartsWith(k, p) && j == k[|p|..]
  {
    if StartsWith(k, p) && j == k[|p|..] {
      assert k == k[..|p|] + k[|p|..];
    }
  }

  /** Storing one more entry changes the sub-store below `key` only when the entry lies below it. */
  lemma MissingUpdate(m: Store, key: string, k: string, v: string)
    ensures StartsWith(k, key + ".") ==>
      Missing(m[k := v], key) == Missing(m, key)[k[|key| + 1..] := v]
    ensures !StartsWith(k, key + ".") ==> Missing(m[k := v], key) == Missing(m, key)
  {
    var p := key + ".";
    forall j
      ensures p + j == k <==> StartsWith(k, p) && j == k[|p|..]
    {
      ConcatSplit(p, j, k);
    }
  }

  // ---------------------------------------------------------------------
  // Iteration
  // ---------------------------------------------------------------------

  /** The iteration runs over `range(2**32)` (or `range(1, 2**32)`). */
  const IndexLimit: nat := 0x1_0000_0000

  /** `self[i]` for an int index `i`: ints are never stored keys, so it is `__missing__(str(i))`. */
  function Row(m: Store, i: nat): Store
  {
    Missing(m, IntToString(i))
  }

  /**
   * The rows of the array from index `start`: the stores `gen(start)`,
   * `gen(start + 1)`, ... up to the first empty one, or up to the end of
   * the index range.
   */
  function TakeNonEmpty(gen: nat -> Store, start: nat): (r: seq<Store>)
    requires start <= IndexLimit
    ensures start + |r| <= IndexLimit
    ensures forall j :: 0 <= j < |r| ==> r[j] == gen(start + j) && r[j] != map[]
    ensures start + |r| < IndexLimit ==> gen(start + |r|) == map[]
    decreases IndexLimit - start
  {
    if start == IndexLimit || gen(start) == map[] then []
    else [gen(start)] + TakeNonEmpty(gen, start + 1)
  }

  /** The rows of an array-shaped store from index `start`. */
  function Run(m: Store, start: nat): (r: seq<Store>)
    requires start <= IndexLimit
    ensures start + |r| <= IndexLimit
    ensures forall j :: 0 <= j < |r| ==> r[j] == Row(m, start + j) && r[j] != map[]
    ensures start + |r| < IndexLimit ==> Row(m, start + |r|) == map[]
  {
    TakeNonEmpty((i: nat) => Row(m, i), start)
  }

  /** What iterating a Config yields: array rows, or its plain keys (order not modelled). */
  datatype Iteration = Rows(rows: seq<Store>) | Keys(keys: set<string>)

  /** The first index of an array-shaped store: 0 if some key starts with `0.`, else 1 if some key starts with `1.`. */
  function ArrayStart(m: Store): Option<nat>
  {
    if exists k :: k in m && StartsWith(k, "0.") then Some(0)
    else if exists k :: k in m && StartsWith(k, "1.") then Some(1)
    else None
  }

  predicate HasKeyBelow(m: Store, index: string)
  {
    exists k :: k in m && StartsWith(k, index + ".")
  }

  /** The row an array starts with is never empty. */
  lemma ArrayStartRow(m: Store, start: nat)
    requires ArrayStart(m) == Some(start)
    ensures Row(m, start) != map[]
  {
    assert "0" + "." == "0." && "1" + "." == "1.";
    if start == 0 {
      MissingEmpty(m, "0");
      assert IntToString(0) == "0";
    } else {
      MissingEmpty(m, "1");
      assert IntToString(1) == "1";
    }
  }

  /**
   * `Config.__iter__`: a store with some `0.` key is an array from index 0,
   * failing that one with some `1.` key is an array from index 1, and an
   * array never yields nothing; any other store yields its keys.
   */
  function Iterate(m: Store): (r: Iteration)
    ensures r.Rows? <==> HasKeyBelow(m, "0") || HasKeyBelow(m, "1")
    ensures HasKeyBelow(m, "0") ==> r == Rows(Run(m, 0))
    ensures !HasKeyBelow(m, "0") && HasKeyBelow(m, "1") ==> r == Rows(Run(m, 1))
    ensures r.Rows? ==> |r.rows| >= 1
    ensures r.Keys? ==> r.keys == m.Keys
  {
    assert "0" + "." == "0." && "1" + "." == "1.";
    match ArrayStart(m)
    case Some(start) =>
      ArrayStartRow(m, start);
      Rows(Run(m, start))
    case None => Keys(m.Keys)
  }

  /** A run whose first row is non-empty and whose next row is empty has exactly one row. */
  lemma TakeOne(gen: nat -> Store, start: nat)
    requires start < IndexLimit - 1
    requires gen(start) != map[] && gen(start + 1) == map[]
    ensures TakeNonEmpty(gen, start) == [gen(start)]
  {
  }

  /** A run whose first two rows are non-empty and whose third row is empty has exactly two rows. */
  lemma TakeTwo(gen: nat -> Store, start: nat)
    requires start < IndexLimit - 2
    requires gen(start) != map[] && gen(start + 1) != map[] && gen(start + 2) == map[]
    ensures TakeNonEmpty(gen, start) == [gen(start), gen(start + 1)]
  {
    TakeOne(gen, start + 1);
  }

  /** The row of index 0 of the store with keys `0.a` and `2.a`. */
  lemma RowZeroOfGap(m: Store)
    requires m == map["0.a" := "x", "2.a" := "y"]
    ensures Row(m, 0) == map["a" := "x"]
  {
    var e: Store := map[];
    assert m == e["0.a" := "x"]["2.a" := "y"];
    assert IntToString(0) == "0";
    assert Missing(e, "0") == map[];
    assert StartsWith("0.a", "0" + ".") && "0.a"[2..] == "a";
    NotStartsWith("2.a", "0" + ".", 0);
    MissingUpdate(e, "0", "0.a", "x");
    MissingUpdate(e["0.a" := "x"], "0", "2.a", "y");
  }

  /** The row of index `i` is empty when neither key starts with `i.`. */
  lemma RowOfTwoEmpty(m: Store, i: nat, k1: string, v1: string, k2: string, v2: string)
    requires m == map[k1 := v1, k2 := v2]
    requires !StartsWith(k1, IntToString(i) + ".") && !StartsWith(k2, IntToString(i) + ".")
    ensures Row(m, i) == map[]
  {
    MissingOfTwoEmpty(m, IntToString(i), k1, v1, k2, v2);
  }

  /** The sub-store of `index` in a two-entry store with neither key below `index.` is empty. */
  lemma MissingOfTwoEmpty(m: Store, index: string, k1: string, v1: string, k2: string, v2: string)
    requires m == map[k1 := v1, k2 := v2]
    requires !StartsWith(k1, index + ".") && !StartsWith(k2, index + ".")
    ensures Missing(m, index) == map[]
  {
    var e: Store := map[];
    assert m == e[k1 := v1][k2 := v2];
    assert Missing(e, index) == map[];
    MissingUpdate(e, index, k1, v1);
    MissingUpdate(e[k1 := v1], index, k2, v2);
  }

  lemma RowsOfGap(m: Store)
    requires m == map["0.a" := "x", "2.a" := "y"]
    ensures Row(m, 0) == map["a" := "x"] && Row(m, 1) == map[]
  {
    RowZeroOfGap(m);
    assert IntToString(1) == "1";
    NotStartsWith("0.a", "1" + ".", 0);
    NotStartsWith("2.a", "1" + ".", 0);
    RowOfTwoEmpty(m, 1, "0.a", "x", "2.a", "y");
  }

  /** A gap ends the array: keys `0.a` and `2.a` iterate to the single row of index 0. */
  lemma IterateStopsAtGap(m: Store)
    requires m == map["0.a" := "x", "2.a" := "y"]
    ensures Iterate(m) == Rows([map["a" := "x"]])
  {
    assert "0.a" in m && StartsWith("0.a", "0.");
    RowsOfGap(m);
    var gen := (i: nat) => Row(m, i);
    assert "a" in gen(0);
    assert gen(0 + 1) == map[];
    TakeOne(gen, 0);
  }

  /** The row of index `i` holds `a` from the one key `i.a`, when the other key is not below `i.`. */
  lemma RowOfTwoSingle(m: Store, i: nat, k1: string, v1: string, k2: string, v2: string)
    requires m == map[k1 := v1, k2 := v2]
    requires k1 == IntToString(i) + ".a" && !StartsWith(k2, IntToString(i) + ".")
    ensures Row(m, i) == map["a" := v1]
  {
    MissingOfTwoSingle(m, IntToString(i), k1, v1, k2, v2);
  }

  /** The sub-store of `index` in a two-entry store whose first key is `index.a` and whose second lies elsewhere. */
  lemma MissingOfTwoSingle(m: Store, index: string, k1: string, v1: string, k2: string, v2: string)
    requires m == map[k1 := v1, k2 := v2]
    requires k1 == index + ".a" && !StartsWith(k2, index + ".")
    ensures Missing(m, index) == map["a" := v1]
  {
    var e: Store := map[];
    assert m == e[k1 := v1][k2 := v2];
    assert Missing(e, index) == map[];
    assert StartsWith(k1, index + ".") && k1[|index| + 1..] == "a";
    MissingUpdate(e, index, k1, v1);
    MissingUpdate(e[k1 := v1], index, k2, v2);
  }

  lemma RowsOfOneBased(m: Store)
    requires m == map["1.a" := "x", "2.a" := "y"]
    ensures Row(m, 1) == map["a" := "x"] && Row(m, 2) == map["a" := "y"] && Row(m, 3) == map[]
  {
    assert IntToString(1) == "1" && IntToString(2) == "2" && IntToString(3) == "3";
    NotStartsWith("2.a", "1" + ".", 0);
    NotStartsWith("1.a", "2" + ".", 0);
    NotStartsWith("1.a", "3" + ".", 0);
    NotStartsWith("2.a", "3" + ".", 0);
    RowOfTwoSingle(m, 1, "1.a", "x", "2.a", "y");
    assert m == map["2.a" := "y", "1.a" := "x"];
    RowOfTwoSingle(m, 2, "2.a", "y", "1.a", "x");
    RowOfTwoEmpty(m, 3, "1.a", "x", "2.a", "y");
  }

  /** An array-shaped store with exactly two non-empty rows iterates to them. */
  lemma IterateTwoRows(m: Store, start: nat, next: nat, after: nat, first: Store, second: Store)
    requires ArrayStart(m) == Some(start) && next == start + 1 && after == start + 2
    requires Row(m, start) == first && Row(m, next) == second && Row(m, after) == map[]
    requires first != map[] && second != map[]
    ensures Iterate(m) == Rows([first, second])
  {
    TakeTwo((i: nat) => Row(m, i), start);
  }

  lemma OneBasedHasNoZeroKey(m: Store)
    requires m == map["1.a" := "x", "2.a" := "y"]
    ensures ArrayStart(m) == Some(1)
  {
    assert "0" + "." == "0." && "1" + "." == "1.";
    forall k | k in m
      ensures !StartsWith(k, "0.")
    {
      assert k == "1.a" || k == "2.a";
      NotStartsWith(k, "0.", 0);
    }
    assert "1.a" in m && StartsWith("1.a", "1.");
  }

  /** Keys `1.a` and `2.a` make a 1-based array of two rows. */
  lemma IterateOneBased(m: Store)
    requires m == map["1.a" := "x", "2.a" := "y"]
    ensures Iterate(m) == Rows([map["a" := "x"], map["a" := "y"]])
  {
    OneBasedHasNoZeroKey(m);
    RowsOfOneBased(m);
    assert "a" in map["a" := "x"] && "a" in map["a" := "y"];
    IterateTwoRows(m, 1, 2, 3, map["a" := "x"], map["a" := "y"]);
  }

  // ---------------------------------------------------------------------
  // Rendering
  // ---------------------------------------------------------------------

  /** One `key=value` line per key, in the given key order. */
  function Lines(m: Store, keys: seq<string>): (r: seq<string>)
    requires forall i :: 0 <= i < |keys| ==> keys[i] in m
    ensures |r| == |keys|
    ensures forall i :: 0 <= i < |keys| ==> r[i] == keys[i] + "=" + m[keys[i]]
  {
    if keys == [] then [] else [keys[0] + "=" + m[keys[0]]] + Lines(m, keys[1..])
  }

  /**
   * `Config.__str__`: the `key=value` lines in sorted key order, joined by
   * newlines. Only the empty store renders as the empty string.
   */
  ghost function Render(m: Store): (r: string)
    ensures r == "" <==> m == map[]
  {
    var keys := Sorted(m.Keys);
    var lines := Lines(m, keys);
    assert m != map[] ==> |keys| >= 1 && lines[0] != "" by {
      if m != map[] {
        var k :| k in m;
        assert k in keys;
      }
    }
    Join(lines, "\n")
  }

  /** A one-entry store renders as its single `key=value` line, with no newline. */
  lemma RenderSingle(k: string, v: string)
    ensures Render(map[k := v]) == k + "=" + v
  {
    var m := map[k := v];
    var ks := Sorted(m.Keys);
    assert |ks| == 1 && ks[0] == k;
  }

  /**
   * A store with more than one entry renders as the line of its least key, a
   * newline, and the rendering of the other entries; with `RenderSingle`
   * this determines the rendering of every non-empty store.
   */
  lemma RenderLeastFirst(m: Store, k: string)
    requires k in m && forall j :: j in m && j != k ==> Below(k, j)
    ensures var rest := m - {k};
            Render(m) == if rest == map[] then k + "=" + m[k] else k + "=" + m[k] + "\n" + Render(rest)
  {
    var rest := m - {k};
    SortedLinesLeastFirst(m, k);
    var tail := Lines(rest, Sorted(rest.Keys));
    if rest != map[] {
      var j :| j in rest;
      assert j in Sorted(rest.Keys);
      assert ([k + "=" + m[k]] + tail)[1..] == tail;
    }
  }

  /** The sorted lines of a store are the line of its least key followed by the sorted lines of the rest. */
  lemma SortedLinesLeastFirst(m: Store, k: string)
    requires k in m && forall j :: j in m && j != k ==> Below(k, j)
    ensures Lines(m, Sorted(m.Keys)) == [k + "=" + m[k]] + Lines(m - {k}, Sorted((m - {k}).Keys))
  {
    var rest := m - {k};
    assert rest.Keys == m.Keys - {k};
    SortedLeastFirst(m.Keys, k);
    var tail := Sorted(rest.Keys);
    var keys := [k] + tail;
    assert keys[0] == k && keys[1..] == tail;
    var a := Lines(m, tail);
    var b := Lines(rest, tail);
    assert |a| == |b|;
    forall i | 0 <= i < |a| ensures a[i] == b[i] {
      assert tail[i] in rest;
    }
    assert a == b;
  }

  // ---------------------------------------------------------------------
  // change
  // ---------------------------------------------------------------------

  /** The keys of `m` that start with `key` (a plain string prefix, no separator). */
  function PrefixedKeys(m: Store, key: string): set<string>
  {
    set k | k in m && StartsWith(k, key)
  }

  /** The store after the deletion loop of `change`. */
  function WithoutPrefix(m: Store, key: string): (r: Store)
    ensures forall k :: k in r <==> k in m && !StartsWith(k, key)
    ensures forall k :: k in r ==> r[k] == m[k]
  {
    m - PrefixedKeys(m, key)
  }

  /** The store after `change` and whether it completed (false: it raised TypeError). */
  datatype Changes = Changes(store: Store, ok: bool)

  /** The text `change` stores for a scalar: strings as-is, bools as enabled/disabled, ints in decimal. */
  function Encode(v: Val): (r: Option<string>)
    ensures r.Some? <==> v.Str? || v.Bool? || v.Int?
    ensures v.Str? ==> r == Some(v.s)
    ensures v.Bool? ==> r.Some? && (r.value == "enabled" <==> v.b) && (r.value == "disabled" <==> !v.b)
    ensures v.Int? ==> r == Some(IntToString(v.n)) && ReadDecimal(r.value) == Some(v.n)
  {
    match v
    case Str(s) => Some(s)
    case Bool(b) => Some(if b then "enabled" else "disabled")
    case Int(n) => Some(IntToString(n))
    case _ => None
  }

  /** No `Other` anywhere inside the value: the types `change` accepts. */
  predicate WellTyped(v: Val)
    decreases v, 1
  {
    match v
    case Other => false
    case Dict(items) => AllWellTyped(items)
    case _ => true
  }

  predicate AllWellTyped(items: seq<Field>)
    decreases items, 0
  {
    items == [] || (assert items[0] in items; WellTyped(items[0].value) && AllWellTyped(items[1..]))
  }

  /**
   * Reference meaning of `Config.change(key, v)` on the store `m`: the
   * store afterwards, and whether the call completed, which it does exactly
   * when the value holds no unsupported type (otherwise TypeError).
   */
  function Changed(m: Store, key: string, v: Val): (r: Changes)
    ensures r.ok <==> WellTyped(v)
    decreases v, 1
  {
    var kept := WithoutPrefix(m, key);
    match v
    case Dict(items) => ChangedItems(kept, key, items)
    case Other => Changes(kept, false)
    case _ => Changes(kept[key := Encode(v).value], true)
  }

  /** The dict case of `change`: each subkey in order, stopping at the first TypeError. */
  function ChangedItems(m: Store, key: string, items: seq<Field>): (r: Changes)
    ensures r.ok <==> AllWellTyped(items)
    decreases items, 0
  {
    if items == [] then Changes(m, true)
    else
      assert items[0] in items;
      var first := Changed(m, key + "." + items[0].name, items[0].value);
      if !first.ok then first else ChangedItems(first.store, key, items[1..])
  }

  /** Two stores that agree outside `key + suffix` also agree outside the shorter prefix `key`. */
  lemma WithoutLongerPrefix(m1: Store, m2: Store, key: string, suffix: string)
    requires WithoutPrefix(m1, key + suffix) == WithoutPrefix(m2, key + suffix)
    ensures WithoutPrefix(m1, key) == WithoutPrefix(m2, key)
  {
    forall k | StartsWith(k, key + suffix)
      ensures StartsWith(k, key)
    {
      assert k[..|key|] == (key + suffix)[..|key|];
    }
    forall k | k in m1 && !StartsWith(k, key)
      ensures k in WithoutPrefix(m1, key + suffix)
    {
    }
    forall k | k in m2 && !StartsWith(k, key)
      ensures k in WithoutPrefix(m2, key + suffix)
    {
    }
  }

  lemma WithoutPrefixTwice(m: Store, key: string)
    ensures WithoutPrefix(WithoutPrefix(m, key), key) == WithoutPrefix(m, key)
  {
  }

  /**
   * Frame of `change`: every key that does not start with `key` keeps its
   * presence and value, so every key it adds or deletes starts with `key`
   * (on a TypeError too).
   */
  lemma {:induction false} ChangedFrame(m: Store, key: string, v: Val)
    ensures WithoutPrefix(Changed(m, key, v).store, key) == WithoutPrefix(m, key)
    decreases v, 1
  {
    var kept := WithoutPrefix(m, key);
    WithoutPrefixTwice(m, key);
    match v
    case Dict(items) =>
      ChangedItemsFrame(kept, key, items);
    case Other =>
    case _ =>
      assert StartsWith(key, key);
      assert WithoutPrefix(Changed(m, key, v).store, key) == kept;
  }

  lemma {:induction false} ChangedItemsFrame(m: Store, key: string, items: seq<Field>)
    ensures WithoutPrefix(ChangedItems(m, key, items).store, key) == WithoutPrefix(m, key)
    decreases items, 0
  {
    if items != [] {
      assert items[0] in items;
      var sub := key + "." + items[0].name;
      var first := Changed(m, sub, items[0].value);
      ChangedFrame(m, sub, items[0].value);
      assert sub == key + ("." + items[0].name);
      WithoutLongerPrefix(first.store, m, key, "." + items[0].name);
      if first.ok {
        ChangedItemsFrame(first.store, key, items[1..]);
      }
    }
  }

  /** `change` deletes first: what was stored under `key` has no influence on the result. */
  lemma ChangedForgets(m: Store, key: string, v: Val)
    ensures Changed(m, key, v) == Changed(WithoutPrefix(m, key), key, v)
  {
    WithoutPrefixTwice(m, key);
  }

  /** Applying `change(key, v)` twice gives the same store and outcome as applying it once. */
  lemma ChangedIdempotent(m: Store, key: string, v: Val)
    ensures Changed(Changed(m, key, v).store, key, v) == Changed(m, key, v)
  {
    var once := Changed(m, key, v);
    ChangedForgets(once.store, key, v);
    ChangedFrame(m, key, v);
    ChangedForgets(m, key, v);
  }

  /**
   * A scalar is stored as its text at `key` itself, and nothing else is left
   * below `key`.
   */
  lemma ChangedScalar(m: Store, key: string, v: Val)
    requires Encode(v).Some?
    ensures var r := Changed(m, key, v);
      && r.ok
      && Get(r.store, key) == Leaf(Encode(v).value)
      && (forall k :: k in r.store && StartsWith(k, key) ==> k == key)
  {
  }

  /** The deletion tests a plain string prefix: `change("a", …)` also deletes the key `ab`. */
  lemma ChangedDeletesSibling(m: Store, v: Val)
    requires m == map["ab" := "y"] && Encode(v).Some?
    ensures Changed(m, "a", v).store == map["a" := Encode(v).value]
  {
    assert StartsWith("ab", "a");
    assert WithoutPrefix(m, "a") == map[];
  }

  /** An unsupported type raises TypeError after every key starting with `key` is gone. */
  lemma ChangedOtherDeletes(m: Store, key: string)
    ensures var r := Changed(m, key, Other);
      && !r.ok
      && r.store.Keys == m.Keys - PrefixedKeys(m, key)
  {
  }

  /** `a + p` is a prefix of `a + j` exactly when `p` is a prefix of `j`. */
  lemma PrefixCancel(a: string, p: string, j: string)
    ensures StartsWith(a + j, a + p) <==> StartsWith(j, p)
  {
    if StartsWith(a + j, a + p) {
      assert j[..|p|] == (a + j)[|a|..|a| + |p|];
    }
    if StartsWith(j, p) {
      assert (a + j)[..|a + p|] == a + j[..|p|];
    }
  }

  /** Deleting below `key.p` and then looking up `key` is deleting below `p` in the sub-store. */
  lemma MissingWithout(m: Store, key: string, p: string)
    ensures Missing(WithoutPrefix(m, key + "." + p), key) == WithoutPrefix(Missing(m, key), p)
  {
    forall j
      ensures StartsWith(key + "." + j, key + "." + p) <==> StartsWith(j, p)
    {
      PrefixCancel(key + ".", p, j);
    }
  }

  /** Storing at `key.p` and then looking up `key` is storing at `p` in the sub-store. */
  lemma MissingAssign(m: Store, key: string, p: string, s: string)
    ensures Missing(m[key + "." + p := s], key) == Missing(m, key)[p := s]
  {
    var k := key + "." + p;
    assert StartsWith(k, key + ".") && k[|key| + 1..] == p;
    MissingUpdate(m, key, k, s);
  }

  /**
   * `change` commutes with sub-store lookup: looking up `key` after
   * `change(key + "." + p, v)` gives what `change(p, v)` does to the
   * sub-store `self[key]`, with the same outcome.
   */
  lemma {:induction false} ChangedBelow(m: Store, key: string, p: string, v: Val)
    ensures var r := Changed(m, key + "." + p, v);
            var s := Changed(Missing(m, key), p, v);
            Missing(r.store, key) == s.store && r.ok == s.ok
    decreases v, 1
  {
    var kept := WithoutPrefix(m, key + "." + p);
    MissingWithout(m, key, p);
    match v
    case Dict(items) =>
      ChangedItemsBelow(kept, key, p, items);
    case Other =>
    case _ =>
      MissingAssign(kept, key, p, Encode(v).value);
  }

  lemma {:induction false} ChangedItemsBelow(m: Store, key: string, p: string, items: seq<Field>)
    ensures var r := ChangedItems(m, key + "." + p, items);
            var s := ChangedItems(Missing(m, key), p, items);
            Missing(r.store, key) == s.store && r.ok == s.ok
    decreases items, 0
  {
    if items != [] {
      assert items[0] in items;
      var name := items[0].name;
      assert (key + "." + p) + "." + name == key + "." + (p + "." + name);
      ChangedBelow(m, key, p + "." + name, items[0].value);
      var first := Changed(m, key + "." + (p + "." + name), items[0].value);
      if first.ok {
        ChangedItemsBelow(first.store, key, p, items[1..]);
      }
    }
  }

  /**
   * Round trip through the dotted keys: after `change(key + "." + p, v)` for a
   * scalar `v`, the chained lookup `self[key][p]` gives the stored text of `v`
   * (when `key` itself is not a stored key).
   */
  lemma ChangedReadBack(m: Store, key: string, p: string, v: Val)
    requires Encode(v).Some? && key !in m
    ensures var r := Changed(m, key + "." + p, v).store;
            Get(r, key).Node? && Get(Get(r, key).sub, p) == Leaf(Encode(v).value)
  {
    var full := key + "." + p;
    ChangedFrame(m, full, v);
    assert |full| > |key|;
    assert key !in WithoutPrefix(m, full);
    ChangedBelow(m, key, p, v);
    ChangedScalar(Missing(m, key), p, v);
  }

  /**
   * The store of the exporter, updated in place by `change`.
   */
  class Config {
    var entries: Store

    constructor (entries: Store)
      ensures this.entries == entries
    {
      this.entries := entries;
    }

    /**
     * `Config.change`: deletes every key starting with `key`, then stores `val`
     * flattened under `key`; `ok` is false when it raised TypeError.
     */
    method Change(key: string, val: Val) returns (ok: bool)
      modifies this
      ensures Changes(entries, ok) == Changed(old(entries), key, val)
      decreases val
    {
      var doomed := set k | k in entries && StartsWith(k, key);
      ghost var start, all := entries, doomed;
      while doomed != {}
        invariant doomed <= all
        invariant entries == start - (all - doomed)
        decreases doomed
      {
        var k :| k in doomed;
        entries := entries - {k};
        doomed := doomed - {k};
      }
      assert entries == WithoutPrefix(start, key);
      match val
      case Str(s) =>
        entries := entries[key := s];
        ok := true;
      case Bool(b) =>
        entries := entries[key := if b then "enabled" else "disabled"];
        ok := true;
      case Int(n) =>
        entries := entries[key := IntToString(n)];
        ok := true;
      case Dict(items) =>
        ghost var kept := entries;
        ok := true;
        var i := 0;
        while i < |items|
          invariant 0 <= i <= |items|
          invariant ChangedItems(kept, key, items) == ChangedItems(entries, key, items[i..])
        {
          assert items[i] in items;
          ok := Change(key + "." + items[i].name, items[i].value);
          if !ok {
            return;
          }
          assert items[i..][1..] == items[i + 1..];
          i := i + 1;
        }
      case Other =>
        ok := false;
    }
  }
}
