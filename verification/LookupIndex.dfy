/**
 The search index of a collection: a multi-hash from attribute names to items, kept beside the
 items themselves. Items are any type with equality; the hash may iterate in any order.
 */
module LookupIndex {
  import opened Options
  import opened QtStream

  type Attributes = map<QString, QString>

  datatype Pair<I> = Pair(key: QString, item: I)

  /** The attributes of the live items, and the pairs of the multi-hash. */
  datatype State<I> = State(attrs: map<I, Attributes>, lookup: seq<Pair<I>>)

  /** Whether a pattern matches itself, as the search asks the regular-expression engine. */
  type SelfMatch = QString -> bool

  // ----- One query value against one item -----

  /** "regexp:" */
  const REGEXP: QString := [0x72, 0x65, 0x67, 0x65, 0x78, 0x70, 0x3a]

  function Lower(c: bv16): bv16 {
    if 0x41 <= c <= 0x5a then c + 0x20 else c
  }

  predicate IsRegexp(value: QString) {
    |value| >= |REGEXP| && forall k :: 0 <= k < |REGEXP| ==> Lower(value[k]) == REGEXP[k]
  }

  /** A pattern is any value that begins with the word and a colon, in small letters or capitals. */
  lemma IsRegexpIff(value: QString)
    ensures var small: QString, large: QString :=
              [0x72, 0x65, 0x67, 0x65, 0x78, 0x70, 0x3a], [0x52, 0x45, 0x47, 0x45, 0x58, 0x50, 0x3a];
      IsRegexp(value) <==> |value| >= 7 && forall k :: 0 <= k < 7 ==> value[k] == small[k] || value[k] == large[k]
  {
    var small: QString, large: QString :=
      [0x72, 0x65, 0x67, 0x65, 0x78, 0x70, 0x3a], [0x52, 0x45, 0x47, 0x45, 0x58, 0x50, 0x3a];
    if |value| >= 7 {
      forall k | 0 <= k < 7 ensures Lower(value[k]) == REGEXP[k] <==> value[k] == small[k] || value[k] == large[k] {
        assert REGEXP[k] == small[k];
      }
    }
  }

  /** What an absent attribute reads as. */
  function ValueOf(a: Attributes, key: QString): QString {
    if key in a then a[key] else []
  }

  predicate Accepts(selfMatch: SelfMatch, a: Attributes, key: QString, value: QString) {
    if value == [] then true
    else if IsRegexp(value) then
      var expr := value[|REGEXP|..];
      expr != [] && selfMatch(expr)
    else ValueOf(a, key) == value
  }

  /** A value that is compared as it stands. */
  predicate Plain(value: QString) {
    value != [] && !IsRegexp(value)
  }

  /** A value that accepts an item holding that very value. */
  predicate AcceptsItself(selfMatch: SelfMatch, value: QString) {
    value == [] || !IsRegexp(value) || (|value| > |REGEXP| && selfMatch(value[|REGEXP|..]))
  }

  lemma AcceptedAcceptsItself(selfMatch: SelfMatch, a: Attributes, key: QString, value: QString)
    ensures Accepts(selfMatch, a, key, value) ==> AcceptsItself(selfMatch, value)
    ensures AcceptsItself(selfMatch, value) && ValueOf(a, key) == value ==> Accepts(selfMatch, a, key, value)
  {
    if IsRegexp(value) {
      assert |value[|REGEXP|..]| == |value| - |REGEXP|;
    }
  }

  // ----- The search -----

  ghost predicate Covers<I>(attrs: map<I, Attributes>, hash: seq<Pair<I>>) {
    forall j :: 0 <= j < |hash| ==> hash[j].item in attrs
  }

  /** From the first pair with the key to the end of the hash, whatever keys follow. */
  function From<I>(hash: seq<Pair<I>>, key: QString): seq<Pair<I>> {
    hash[FirstAt(hash, key)..]
  }

  function FirstAt<I>(hash: seq<Pair<I>>, key: QString): (n: nat)
    ensures n <= |hash| && forall j :: 0 <= j < n ==> hash[j].key != key
    ensures n < |hash| ==> hash[n].key == key
    decreases |hash|
  {
    if |hash| == 0 || hash[0].key == key then 0 else 1 + FirstAt(hash[1..], key)
  }

  function Scan<I(==)>(selfMatch: SelfMatch, attrs: map<I, Attributes>, pairs: seq<Pair<I>>,
                       key: QString, value: QString, found: seq<I>): seq<I>
    requires Covers(attrs, pairs)
    decreases |pairs|
  {
    if pairs == [] then found
    else
      var i := pairs[0].item;
      var more := if i !in found && Accepts(selfMatch, attrs[i], key, value) then found + [i] else found;
      Scan(selfMatch, attrs, pairs[1..], key, value, more)
  }

  function Search<I(==)>(selfMatch: SelfMatch, attrs: map<I, Attributes>, hash: seq<Pair<I>>,
                         query: Attributes, keys: seq<QString>, found: seq<I>): seq<I>
    requires Covers(attrs, hash)
    requires forall k :: k in keys ==> k in query
    decreases |keys|
  {
    if keys == [] then found
    else
      FromCovered(attrs, hash, keys[0]);
      Search(selfMatch, attrs, hash, query, keys[1..],
             Scan(selfMatch, attrs, From(hash, keys[0]), keys[0], query[keys[0]], found))
  }

  lemma FromCovered<I>(attrs: map<I, Attributes>, hash: seq<Pair<I>>, key: QString)
    requires Covers(attrs, hash)
    ensures Covers(attrs, From(hash, key))
  {
    var n := FirstAt(hash, key);
    forall j | 0 <= j < |hash| - n ensures hash[n..][j].item in attrs {
      assert hash[n..][j] == hash[n + j];
    }
  }

  ghost predicate Distinct<I>(list: seq<I>) {
    forall j, k :: 0 <= j < k < |list| ==> list[j] != list[k]
  }

  ghost predicate HasItem<I>(pairs: seq<Pair<I>>, i: I) {
    exists j :: 0 <= j < |pairs| && pairs[j].item == i
  }

  /** A pass over pairs adds, once each, the items among them that accept the value. */
  lemma {:induction false} ScanAdds<I>(selfMatch: SelfMatch, attrs: map<I, Attributes>, pairs: seq<Pair<I>>,
                                           key: QString, value: QString, found: seq<I>)
    requires Covers(attrs, pairs) && Distinct(found)
    ensures Distinct(Scan(selfMatch, attrs, pairs, key, value, found))
    ensures forall i :: i in Scan(selfMatch, attrs, pairs, key, value, found) <==>
              i in found || (HasItem(pairs, i) && Accepts(selfMatch, attrs[i], key, value))
    decreases |pairs|
  {
    if pairs == [] {
    } else {
      var i := pairs[0].item;
      var more := if i !in found && Accepts(selfMatch, attrs[i], key, value) then found + [i] else found;
      ScanAdds(selfMatch, attrs, pairs[1..], key, value, more);
      forall x ensures HasItem(pairs, x) <==> x == i || HasItem(pairs[1..], x) {
        if HasItem(pairs, x) && x != i {
          var j :| 0 <= j < |pairs| && pairs[j].item == x;
          assert pairs[1..][j - 1].item == x;
        }
      }
    }
  }

  /** What one query attribute finds: the items from its key's first pair on that accept the value. */
  ghost predicate Hit<I>(selfMatch: SelfMatch, attrs: map<I, Attributes>, hash: seq<Pair<I>>,
                             query: Attributes, key: QString, i: I)
    requires key in query
  {
    HasItem(From(hash, key), i) && i in attrs && Accepts(selfMatch, attrs[i], key, query[key])
  }

  ghost predicate HitByOne<I>(selfMatch: SelfMatch, attrs: map<I, Attributes>, hash: seq<Pair<I>>,
                              query: Attributes, keys: seq<QString>, i: I)
    requires forall k :: k in keys ==> k in query
  {
    exists k :: k in keys && Hit(selfMatch, attrs, hash, query, k, i)
  }

  lemma {:induction false} SearchFinds<I>(selfMatch: SelfMatch, attrs: map<I, Attributes>, hash: seq<Pair<I>>,
                                              query: Attributes, keys: seq<QString>, found: seq<I>)
    requires Covers(attrs, hash) && Distinct(found)
    requires forall k :: k in keys ==> k in query
    ensures Distinct(Search(selfMatch, attrs, hash, query, keys, found))
    ensures forall i :: i in Search(selfMatch, attrs, hash, query, keys, found) <==>
              i in found || HitByOne(selfMatch, attrs, hash, query, keys, i)
    decreases |keys|
  {
    if keys == [] {
    } else {
      var key := keys[0];
      FromCovered(attrs, hash, key);
      var pairs := From(hash, key);
      ScanAdds(selfMatch, attrs, pairs, key, query[key], found);
      var next := Scan(selfMatch, attrs, pairs, key, query[key], found);
      SearchFinds(selfMatch, attrs, hash, query, keys[1..], next);
      forall i ensures HitByOne(selfMatch, attrs, hash, query, keys, i) <==>
                 Hit(selfMatch, attrs, hash, query, key, i) || HitByOne(selfMatch, attrs, hash, query, keys[1..], i)
      {
        assert forall k :: k in keys <==> k == key || k in keys[1..];
      }
    }
  }

  lemma SearchIsLive<I>(selfMatch: SelfMatch, attrs: map<I, Attributes>, hash: seq<Pair<I>>, query: Attributes, keys: seq<QString>)
    requires Covers(attrs, hash)
    requires forall k :: k in keys ==> k in query
    ensures forall j :: 0 <= j < |Search(selfMatch, attrs, hash, query, keys, [])| ==>
              Search(selfMatch, attrs, hash, query, keys, [])[j] in attrs
  {
    SearchFinds(selfMatch, attrs, hash, query, keys, []);
    var r := Search(selfMatch, attrs, hash, query, keys, []);
    forall j | 0 <= j < |r| ensures r[j] in attrs {
      var i: I := r[j];
      assert i in r;
      assert HitByOne(selfMatch, attrs, hash, query, keys, i);
    }
  }

  // ----- The index agrees with the items -----

  /** Every pair names a live item, and every attribute of a live item has a pair. */
  ghost predicate Agrees<I>(s: State<I>) {
    && Covers(s.attrs, s.lookup)
    && forall i, k :: i in s.attrs && k in s.attrs[i] ==> Pair(k, i) in s.lookup
  }

  /** The keys of some attributes in the order of an iteration. */
  ghost predicate Enumerates(keys: seq<QString>, a: Attributes) {
    Distinct(keys) && forall k :: k in keys <==> k in a
  }

  /** The hash as an iteration shows it: the same pairs in any order. */
  ghost predicate Iterates<I>(hash: seq<Pair<I>>, s: State<I>) {
    multiset(hash) == multiset(s.lookup)
  }

  lemma IterationAgrees<I>(s: State<I>, hash: seq<Pair<I>>)
    requires Agrees(s) && Iterates(hash, s)
    ensures Covers(s.attrs, hash)
    ensures forall i, k :: i in s.attrs && k in s.attrs[i] ==> Pair(k, i) in hash
  {
    assert forall p :: p in multiset(hash) <==> p in multiset(s.lookup);
    forall p ensures p in hash <==> p in s.lookup {
      assert p in hash <==> p in multiset(hash);
      assert p in s.lookup <==> p in multiset(s.lookup);
    }
    forall j | 0 <= j < |hash| ensures hash[j].item in s.attrs {
      assert hash[j] in s.lookup;
    }
  }

  /** The items a scan of all of them would find: those sharing a query attribute. */
  ghost predicate Shares(a: Attributes, query: Attributes) {
    exists k :: k in query && k in a && a[k] == query[k]
  }

  /**
   The indexed search is the scan: for plain values it returns exactly the live items sharing
   an attribute with the query, each once, whatever order the hash and the query iterate in.
   */
  lemma SearchIsScan<I>(selfMatch: SelfMatch, s: State<I>, hash: seq<Pair<I>>, query: Attributes, keys: seq<QString>)
    requires Agrees(s) && Iterates(hash, s) && Enumerates(keys, query)
    requires forall k :: k in query ==> Plain(query[k])
    ensures Covers(s.attrs, hash)
    ensures var r := Search(selfMatch, s.attrs, hash, query, keys, []);
            && Distinct(r)
            && forall i :: i in r <==> i in s.attrs && Shares(s.attrs[i], query)
  {
    IterationAgrees(s, hash);
    SearchFinds(selfMatch, s.attrs, hash, query, keys, []);
    forall i, k | k in query && i in s.attrs
      ensures Hit(selfMatch, s.attrs, hash, query, k, i) <==> k in s.attrs[i] && s.attrs[i][k] == query[k]
    {
      if k in s.attrs[i] {
        HasPair(hash, k, i);
      }
    }
  }

  lemma HasPair<I>(hash: seq<Pair<I>>, key: QString, i: I)
    requires Pair(key, i) in hash
    ensures HasItem(From(hash, key), i)
  {
    var n := FirstAt(hash, key);
    var j :| 0 <= j < |hash| && hash[j] == Pair(key, i);
    assert hash[n..][j - n].item == i;
  }

  /** Some pair of the key is followed, at once or later, by a pair of the item, or is one. */
  ghost predicate Behind<I>(hash: seq<Pair<I>>, key: QString, i: I) {
    exists a, b :: 0 <= a <= b < |hash| && hash[a].key == key && hash[b].item == i
  }

  lemma FromIsBehind<I>(hash: seq<Pair<I>>, key: QString, i: I)
    ensures HasItem(From(hash, key), i) <==> Behind(hash, key, i)
  {
    var n := FirstAt(hash, key);
    if a, b :| 0 <= a <= b < |hash| && hash[a].key == key && hash[b].item == i {
      assert hash[n..][b - n].item == i;
    }
    if j :| 0 <= j < |hash[n..]| && hash[n..][j].item == i {
      assert hash[n].key == key && hash[n + j].item == i;
    }
  }

  /**
   A query for one attribute finds, whatever kind its value is, items behind the first pair with
   its key: for an empty value all of them, for a pattern that matches its own text all of them,
   for another pattern none, and for a plain value those that have it.
   */
  lemma OneValueFinds<I>(selfMatch: SelfMatch, s: State<I>, hash: seq<Pair<I>>, key: QString, value: QString, i: I)
    requires Agrees(s) && Iterates(hash, s)
    ensures Covers(s.attrs, hash)
    ensures i in Search(selfMatch, s.attrs, hash, map[key := value], [key], []) <==>
      && Behind(hash, key, i) && i in s.attrs
      && (value == []
          || (IsRegexp(value) && |value| > 7 && selfMatch(value[7..]))
          || (!IsRegexp(value) && value == if key in s.attrs[i] then s.attrs[i][key] else []))
  {
    assert IsRegexp(value) ==> |value| >= 7 && |value[7..]| == |value| - 7;
    hide IsRegexp;
    IterationAgrees(s, hash);
    SearchFinds(selfMatch, s.attrs, hash, map[key := value], [key], []);
    FromIsBehind(hash, key, i);
    assert HitByOne(selfMatch, s.attrs, hash, map[key := value], [key], i) <==>
           Hit(selfMatch, s.attrs, hash, map[key := value], key, i);
  }

  /** What `matches` asks of an item: every query attribute, with its value. */
  predicate MatchesAll(a: Attributes, query: Attributes) {
    forall k :: k in query ==> k in a && a[k] == query[k]
  }

  /** An item matches if and only if the query is part of its attributes. */
  lemma MatchesIff(a: Attributes, query: Attributes)
    ensures MatchesAll(a, query) <==> query.Items <= a.Items
  {
    if query.Items <= a.Items {
      forall k | k in query ensures k in a && a[k] == query[k] {
        assert (k, query[k]) in query.Items;
      }
    }
  }

  /**
   The search finds at least what matches the whole query, when that is not empty and holds a
   value that accepts itself; for an empty query it finds nothing, though everything matches.
   */
  lemma SearchFindsMatches<I>(selfMatch: SelfMatch, s: State<I>, hash: seq<Pair<I>>, query: Attributes, keys: seq<QString>)
    requires Agrees(s) && Iterates(hash, s) && Enumerates(keys, query)
    ensures Covers(s.attrs, hash)
    ensures var r := Search(selfMatch, s.attrs, hash, query, keys, []);
            && (Detectable(selfMatch, query) ==> forall i :: i in s.attrs && MatchesAll(s.attrs[i], query) ==> i in r)
            && (!Detectable(selfMatch, query) ==> r == [])
  {
    IterationAgrees(s, hash);
    SearchFinds(selfMatch, s.attrs, hash, query, keys, []);
    var r := Search(selfMatch, s.attrs, hash, query, keys, []);
    if Detectable(selfMatch, query) {
      var k :| k in query && AcceptsItself(selfMatch, query[k]);
      forall i | i in s.attrs && MatchesAll(s.attrs[i], query) ensures i in r {
        HasPair(hash, k, i);
        AcceptedAcceptsItself(selfMatch, s.attrs[i], k, query[k]);
        assert Hit(selfMatch, s.attrs, hash, query, k, i);
      }
    } else if r != [] {
      var i: I := r[0];
      assert i in Search(selfMatch, s.attrs, hash, query, keys, []);
      assert HitByOne(selfMatch, s.attrs, hash, query, keys, i);
      var k :| k in keys && Hit(selfMatch, s.attrs, hash, query, k, i);
      AcceptedAcceptsItself(selfMatch, s.attrs[i], k, query[k]);
    }
  }

  /** Some value accepts itself. */
  ghost predicate Detectable(selfMatch: SelfMatch, a: Attributes) {
    exists k :: k in a && AcceptsItself(selfMatch, a[k])
  }

  // ----- Changing the items -----

  /** The pairs `changeAttributeHashes` inserts; it removes none. */
  function PairsOf<I>(keys: seq<QString>, i: I): (r: seq<Pair<I>>)
    ensures |r| == |keys| && forall j :: 0 <= j < |r| ==> r[j] == Pair(keys[j], i)
  {
    seq(|keys|, j requires 0 <= j < |keys| => Pair(keys[j], i))
  }

  function Put<I(==)>(s: State<I>, i: I, a: Attributes, keys: seq<QString>): State<I> {
    State(s.attrs[i := a], s.lookup + PairsOf(keys, i))
  }

  function Without<I(==)>(pairs: seq<Pair<I>>, i: I): seq<Pair<I>>
    decreases |pairs|
  {
    if pairs == [] then []
    else (if pairs[0].item == i then [] else [pairs[0]]) + Without(pairs[1..], i)
  }

  lemma {:induction false} WithoutKeeps<I>(pairs: seq<Pair<I>>, i: I, p: Pair<I>)
    ensures p in Without(pairs, i) <==> p in pairs && p.item != i
    decreases |pairs|
  {
    if pairs == [] {
    } else {
      WithoutKeeps(pairs[1..], i, p);
    }
  }

  function Delete<I(==)>(s: State<I>, i: I): State<I> {
    State(s.attrs - {i}, Without(s.lookup, i))
  }

  /** The first item of a list with exactly these attributes. */
  function FirstEqual<I(==)>(attrs: map<I, Attributes>, list: seq<I>, a: Attributes): (r: Option<I>)
    requires forall j :: 0 <= j < |list| ==> list[j] in attrs
    ensures r.Some? ==> r.value in list && attrs[r.value] == a
    ensures r.None? ==> forall j :: 0 <= j < |list| ==> attrs[list[j]] != a
    decreases |list|
  {
    if list == [] then None
    else if attrs[list[0]] == a then Some(list[0])
    else FirstEqual(attrs, list[1..], a)
  }

  /** What `createItem` finds under these attributes. */
  function Existing<I(==)>(selfMatch: SelfMatch, s: State<I>, hash: seq<Pair<I>>, a: Attributes, keys: seq<QString>): Option<I>
    requires Agrees(s) && Iterates(hash, s) && Enumerates(keys, a)
  {
    IterationAgrees(s, hash);
    SearchIsLive(selfMatch, s.attrs, hash, a, keys);
    FirstEqual(s.attrs, Search(selfMatch, s.attrs, hash, a, keys, []), a)
  }

  /** It finds one exactly when there is one and some value of it accepts itself. */
  lemma ExistingIffDetectable<I>(selfMatch: SelfMatch, s: State<I>, hash: seq<Pair<I>>, a: Attributes, keys: seq<QString>)
    requires Agrees(s) && Iterates(hash, s) && Enumerates(keys, a)
    ensures var e := Existing(selfMatch, s, hash, a, keys);
            && (e.Some? <==> Detectable(selfMatch, a) && exists i :: i in s.attrs && s.attrs[i] == a)
            && (e.Some? ==> e.value in s.attrs && s.attrs[e.value] == a)
  {
    hide Accepts, Iterates, Search;
    SearchFindsMatches(selfMatch, s, hash, a, keys);
    SearchFinds(selfMatch, s.attrs, hash, a, keys, []);
    var r := Search(selfMatch, s.attrs, hash, a, keys, []);
    if i :| i in s.attrs && s.attrs[i] == a {
      assert MatchesAll(s.attrs[i], a);
    }
  }

  // ----- Runs -----

  datatype Op<I> =
    | Create(attributes: Attributes, replace: bool, keys: seq<QString>, hash: seq<Pair<I>>, newItem: I)
    | SetAttributes(item: I, attributes: Attributes, keys: seq<QString>)
    | DeleteItem(item: I)

  /** The iteration orders are orders, a new item is new and the others are live. */
  ghost predicate Enabled<I>(s: State<I>, op: Op<I>) {
    match op
    case Create(a, _, keys, hash, newItem) => Enumerates(keys, a) && Iterates(hash, s) && newItem !in s.attrs
    case SetAttributes(i, a, keys) => Enumerates(keys, a) && i in s.attrs
    case DeleteItem(i) => i in s.attrs
  }

  /** One operation; the contracts of the collection and its items are these cases. */
  function Apply<I(==)>(selfMatch: SelfMatch, s: State<I>, op: Op<I>): State<I>
    requires Agrees(s) && Enabled(s, op)
  {
    match op
    case Create(a, replace, keys, hash, newItem) =>
      (match Existing(selfMatch, s, hash, a, keys)
       case Some(i) => if replace then Put(s, i, a, keys) else s
       case None => Put(s, newItem, a, keys))
    case SetAttributes(i, a, keys) => Put(s, i, a, keys)
    case DeleteItem(i) => Delete(s, i)
  }

  lemma PutAgrees<I>(s: State<I>, i: I, a: Attributes, keys: seq<QString>)
    requires Agrees(s) && Enumerates(keys, a)
    ensures Agrees(Put(s, i, a, keys))
  {
    var t := Put(s, i, a, keys);
    forall k | k in a ensures Pair(k, i) in t.lookup {
      var j :| 0 <= j < |keys| && keys[j] == k;
      assert PairsOf(keys, i)[j] == Pair(k, i);
      assert t.lookup[|s.lookup| + j] == Pair(k, i);
    }
    forall x, k | x in s.attrs && k in s.attrs[x] ensures Pair(k, x) in t.lookup {
    }
  }

  lemma DeleteAgrees<I>(s: State<I>, i: I)
    requires Agrees(s)
    ensures Agrees(Delete(s, i))
  {
    var t := Delete(s, i);
    forall j | 0 <= j < |t.lookup| ensures t.lookup[j].item in t.attrs {
      WithoutKeeps(s.lookup, i, t.lookup[j]);
    }
    forall x, k | x in t.attrs && k in t.attrs[x] ensures Pair(k, x) in t.lookup {
      WithoutKeeps(s.lookup, i, Pair(k, x));
    }
  }

  lemma StepAgrees<I>(selfMatch: SelfMatch, s: State<I>, op: Op<I>)
    requires Agrees(s) && Enabled(s, op)
    ensures Agrees(Apply(selfMatch, s, op))
  {
    match op
    case Create(a, replace, keys, hash, newItem) =>
      ExistingIffDetectable(selfMatch, s, hash, a, keys);
      match Existing(selfMatch, s, hash, a, keys) {
        case Some(i) => PutAgrees(s, i, a, keys);
        case None => PutAgrees(s, newItem, a, keys);
      }
    case SetAttributes(i, a, keys) => PutAgrees(s, i, a, keys);
    case DeleteItem(i) => DeleteAgrees(s, i);
  }

  /** A run every step of which can be taken. */
  ghost predicate RunEnabled<I>(selfMatch: SelfMatch, s: State<I>, ops: seq<Op<I>>)
    requires Agrees(s)
    decreases |ops|
  {
    ops == [] || (Enabled(s, ops[0]) &&
                  (StepAgrees(selfMatch, s, ops[0]);
                   RunEnabled(selfMatch, Apply(selfMatch, s, ops[0]), ops[1..])))
  }

  /** The state after a run. */
  ghost function Run<I>(selfMatch: SelfMatch, s: State<I>, ops: seq<Op<I>>): (r: State<I>)
    requires Agrees(s) && RunEnabled(selfMatch, s, ops)
    ensures Agrees(r)
    decreases |ops|
  {
    if ops == [] then s
    else
      StepAgrees(selfMatch, s, ops[0]);
      Run(selfMatch, Apply(selfMatch, s, ops[0]), ops[1..])
  }

  function Fresh<I(==)>(): State<I> {
    State(map[], [])
  }

  /** In every state reached from a fresh collection the indexed search is the scan. */
  lemma SearchIsScanOverRuns<I>(selfMatch: SelfMatch, ops: seq<Op<I>>, hash: seq<Pair<I>>, query: Attributes, keys: seq<QString>)
    requires RunEnabled(selfMatch, Fresh(), ops)
    requires Iterates(hash, Run(selfMatch, Fresh(), ops)) && Enumerates(keys, query)
    requires forall k :: k in query ==> Plain(query[k])
    ensures var s := Run(selfMatch, Fresh(), ops);
            && Covers(s.attrs, hash)
            && var r := Search(selfMatch, s.attrs, hash, query, keys, []);
               && Distinct(r)
               && forall i :: i in r <==> i in s.attrs && Shares(s.attrs[i], query)
  {
    SearchIsScan(selfMatch, Run(selfMatch, Fresh(), ops), hash, query, keys);
  }

  // ----- No duplicates -----

  /** No two live items have equal attributes some value of which accepts itself. */
  ghost predicate Unique<I>(selfMatch: SelfMatch, s: State<I>) {
    forall i, j :: i in s.attrs && j in s.attrs && i != j && s.attrs[i] == s.attrs[j] ==> !Detectable(selfMatch, s.attrs[i])
  }

  /** Changing attributes is not checked for duplicates; the caller has to. */
  ghost predicate Careful<I>(selfMatch: SelfMatch, s: State<I>, op: Op<I>) {
    op.SetAttributes? && Detectable(selfMatch, op.attributes) ==>
      forall j :: j in s.attrs && j != op.item ==> s.attrs[j] != op.attributes
  }

  /** A step keeps the items unique exactly when it is careful. */
  lemma StepUnique<I>(selfMatch: SelfMatch, s: State<I>, op: Op<I>)
    requires Agrees(s) && Enabled(s, op) && Unique(selfMatch, s)
    ensures Unique(selfMatch, Apply(selfMatch, s, op)) <==> Careful(selfMatch, s, op)
  {
    var t := Apply(selfMatch, s, op);
    match op
    case Create(a, replace, keys, hash, newItem) =>
      ExistingIffDetectable(selfMatch, s, hash, a, keys);
    case SetAttributes(i, a, keys) =>
      assert t.attrs == s.attrs[i := a];
      if j :| j in s.attrs && j != i && s.attrs[j] == a && Detectable(selfMatch, a) {
        assert t.attrs[i] == t.attrs[j];
      }
    case DeleteItem(i) =>
  }

  ghost predicate RunCareful<I>(selfMatch: SelfMatch, s: State<I>, ops: seq<Op<I>>)
    requires Agrees(s) && RunEnabled(selfMatch, s, ops)
    decreases |ops|
  {
    ops == [] || (Careful(selfMatch, s, ops[0]) &&
                  (StepAgrees(selfMatch, s, ops[0]);
                   RunCareful(selfMatch, Apply(selfMatch, s, ops[0]), ops[1..])))
  }

  /** The items stay unique after every step of a run. */
  ghost predicate RunUnique<I>(selfMatch: SelfMatch, s: State<I>, ops: seq<Op<I>>)
    requires Agrees(s) && RunEnabled(selfMatch, s, ops)
    decreases |ops|
  {
    Unique(selfMatch, s) &&
    (ops == [] ||
     (StepAgrees(selfMatch, s, ops[0]);
      RunUnique(selfMatch, Apply(selfMatch, s, ops[0]), ops[1..])))
  }

  lemma {:induction false} UniqueOverRuns<I>(selfMatch: SelfMatch, s: State<I>, ops: seq<Op<I>>)
    requires Agrees(s) && RunEnabled(selfMatch, s, ops) && Unique(selfMatch, s)
    ensures RunUnique(selfMatch, s, ops) <==> RunCareful(selfMatch, s, ops)
    decreases |ops|
  {
    if ops == [] {
    } else {
      StepAgrees(selfMatch, s, ops[0]);
      StepUnique(selfMatch, s, ops[0]);
      var t := Apply(selfMatch, s, ops[0]);
      if Unique(selfMatch, t) {
        UniqueOverRuns(selfMatch, t, ops[1..]);
      }
    }
  }

  /** A run of creations and deletions from a fresh collection never makes two equal items. */
  lemma {:induction false} CreationsStayUnique<I>(selfMatch: SelfMatch, s: State<I>, ops: seq<Op<I>>)
    requires Agrees(s) && RunEnabled(selfMatch, s, ops) && Unique(selfMatch, s)
    requires forall j :: 0 <= j < |ops| ==> !ops[j].SetAttributes?
    ensures Unique(selfMatch, Run(selfMatch, s, ops))
    decreases |ops|
  {
    if ops == [] {
    } else {
      StepAgrees(selfMatch, s, ops[0]);
      StepUnique(selfMatch, s, ops[0]);
      CreationsStayUnique(selfMatch, Apply(selfMatch, s, ops[0]), ops[1..]);
    }
  }

  /**
   The number of items: a creation that finds an equal item leaves it, any other adds one.
   Attributes none of whose values accepts itself are added again every time. Unless an equal item
   is left as it is, the index grows by a pair for every attribute, also where it had them.
   */
  lemma CreationCounts<I>(selfMatch: SelfMatch, s: State<I>, op: Op<I>)
    requires Agrees(s) && Enabled(s, op) && op.Create?
    ensures var t := Apply(selfMatch, s, op);
            var known := Detectable(selfMatch, op.attributes) && exists i :: i in s.attrs && s.attrs[i] == op.attributes;
            && |t.attrs| == |s.attrs| + (if known then 0 else 1)
            && (known ==> t.attrs == s.attrs)
            && (known && !op.replace ==> t == s)
            && |t.lookup| == |s.lookup| + (if known && !op.replace then 0 else |op.keys|)
            && (!known ==> t.attrs == s.attrs[op.newItem := op.attributes])
  {
    hide Iterates, Agrees, Detectable, Existing;
    ExistingIffDetectable(selfMatch, s, op.hash, op.attributes, op.keys);
    assert s.attrs[op.newItem := op.attributes].Keys == s.attrs.Keys + {op.newItem};
  }

  /** A bare "regexp:" is never found again, so an item with no other value can be created twice. */
  lemma BarePatternIsDuplicated<I>(selfMatch: SelfMatch, s: State<I>, first: I, key: QString, op: Op<I>)
    requires Agrees(s) && Enabled(s, op) && op.Create? && op.attributes == map[key := REGEXP]
    requires first in s.attrs && s.attrs[first] == op.attributes
    ensures var t := Apply(selfMatch, s, op);
            && t.attrs == s.attrs[op.newItem := op.attributes]
            && first != op.newItem && t.attrs[first] == t.attrs[op.newItem] == op.attributes
  {
    hide Agrees, Iterates, Existing;
    BarePattern(selfMatch);
    CreationCounts(selfMatch, s, op);
  }

  lemma BarePattern(selfMatch: SelfMatch)
    ensures !AcceptsItself(selfMatch, REGEXP)
  {
    assert forall k :: 0 <= k < |REGEXP| ==> Lower(REGEXP[k]) == REGEXP[k];
  }
}
