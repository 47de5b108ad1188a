/** The parsed stack document. The script works on ruamel's round-trip
    mappings, which behave as insertion-ordered dictionaries; here a mapping
    is an ordered list of (key, value) entries. */
module Yaml {

  datatype Option<T> = None | Some(value: T)

  /** A YAML node. `Scalar` stands for every non-string scalar (numbers,
      booleans, timestamps), carried as its source text. */
  datatype Value =
    | Null
    | Str(text: string)
    | Scalar(repr: string)
    | List(items: seq<Value>)
    | Map(entries: seq<(string, Value)>)

  type Entry = (string, Value)

  function Keys(m: seq<Entry>): (ks: seq<string>)
    ensures |ks| == |m|
    ensures forall i :: 0 <= i < |m| ==> ks[i] == m[i].0
    decreases |m|
  {
    if |m| == 0 then [] else [m[0].0] + Keys(m[1..])
  }

  /** No key occurs twice, as in every mapping the YAML loader builds (it
      rejects duplicate keys). */
  predicate DistinctKeys(m: seq<Entry>)
    decreases |m|
  {
    |m| == 0 || (m[0].0 !in Keys(m[1..]) && DistinctKeys(m[1..]))
  }

  /** `m.get(k)`: the value stored under `k`. */
  function Lookup(m: seq<Entry>, k: string): (r: Option<Value>)
    ensures r.Some? <==> k in Keys(m)
    ensures r.Some? ==> (k, r.value) in m
    decreases |m|
  {
    if |m| == 0 then None
    else if m[0].0 == k then Some(m[0].1)
    else Lookup(m[1..], k)
  }

  /** The entries of `m` whose key is `k`, in order. */
  function Select(m: seq<Entry>, k: string): seq<Entry>
    decreases |m|
  {
    if |m| == 0 then []
    else (if m[0].0 == k then [m[0]] else []) + Select(m[1..], k)
  }

  /** The entries of `m` whose key is not in `ks`, in their original order. */
  function Drop(m: seq<Entry>, ks: set<string>): seq<Entry>
    decreases |m|
  {
    if |m| == 0 then []
    else (if m[0].0 in ks then [] else [m[0]]) + Drop(m[1..], ks)
  }

  /** `m[k] = v` on an insertion-ordered dictionary (see `AssignLaws`). */
  function Assign(m: seq<Entry>, k: string, v: Value): seq<Entry>
    decreases |m|
  {
    if |m| == 0 then [(k, v)]
    else if m[0].0 == k then [(k, v)] + m[1..]
    else [m[0]] + Assign(m[1..], k, v)
  }

  lemma {:induction false} AssignLookup(m: seq<Entry>, k: string, v: Value)
    ensures Lookup(Assign(m, k, v), k) == Some(v)
    ensures forall k' :: k' != k ==> Lookup(Assign(m, k, v), k') == Lookup(m, k')
    decreases |m|
  {
    if |m| > 0 && m[0].0 != k {
      AssignLookup(m[1..], k, v);
      assert ([m[0]] + Assign(m[1..], k, v))[1..] == Assign(m[1..], k, v);
    } else if |m| > 0 {
      assert ([(k, v)] + m[1..])[1..] == m[1..];
    }
  }

  lemma {:induction false} AssignKeys(m: seq<Entry>, k: string, v: Value)
    ensures Keys(Assign(m, k, v)) == if k in Keys(m) then Keys(m) else Keys(m) + [k]
    decreases |m|
  {
    if |m| > 0 && m[0].0 != k {
      AssignKeys(m[1..], k, v);
      assert ([m[0]] + Assign(m[1..], k, v))[1..] == Assign(m[1..], k, v);
    } else if |m| > 0 {
      assert ([(k, v)] + m[1..])[1..] == m[1..];
    }
  }

  lemma {:induction false} AssignDrop(m: seq<Entry>, k: string, v: Value)
    ensures Drop(Assign(m, k, v), {k}) == Drop(m, {k})
    decreases |m|
  {
    if |m| > 0 && m[0].0 != k {
      AssignDrop(m[1..], k, v);
      assert ([m[0]] + Assign(m[1..], k, v))[1..] == Assign(m[1..], k, v);
    } else if |m| > 0 {
      assert ([(k, v)] + m[1..])[1..] == m[1..];
    }
  }

  lemma {:induction false} AssignDistinct(m: seq<Entry>, k: string, v: Value)
    requires DistinctKeys(m)
    ensures DistinctKeys(Assign(m, k, v))
    decreases |m|
  {
    if |m| > 0 && m[0].0 != k {
      AssignDistinct(m[1..], k, v);
      AssignKeys(m[1..], k, v);
      assert ([m[0]] + Assign(m[1..], k, v))[1..] == Assign(m[1..], k, v);
    } else if |m| > 0 {
      assert ([(k, v)] + m[1..])[1..] == m[1..];
    }
  }

  lemma {:induction false} AssignUnchanged(m: seq<Entry>, k: string, v: Value)
    requires Lookup(m, k) == Some(v)
    ensures Assign(m, k, v) == m
    decreases |m|
  {
    assert |m| > 0;
    assert m == [m[0]] + m[1..];
    if m[0].0 == k {
      assert m[0] == (k, v);
      assert Assign(m, k, v) == [(k, v)] + m[1..];
    } else {
      assert Lookup(m[1..], k) == Some(v);
      AssignUnchanged(m[1..], k, v);
      assert Assign(m, k, v) == [m[0]] + Assign(m[1..], k, v);
    }
  }

  lemma {:induction false} AssignFresh(m: seq<Entry>, k: string, v: Value)
    requires k !in Keys(m)
    ensures Assign(m, k, v) == m + [(k, v)]
    decreases |m|
  {
    if |m| > 0 {
      AssignFresh(m[1..], k, v);
      assert m == [m[0]] + m[1..];
    }
  }

  /** The laws of `m[k] = v` on an insertion-ordered dictionary: `k` now maps
      to `v` and every other key to what it mapped to before; an existing key
      keeps its position and a new key goes to the end; the other entries keep
      their values and relative order; keys stay distinct; and assigning the
      value a key already has changes nothing. */
  lemma AssignLaws(m: seq<Entry>, k: string, v: Value)
    ensures Lookup(Assign(m, k, v), k) == Some(v)
    ensures forall k' :: k' != k ==> Lookup(Assign(m, k, v), k') == Lookup(m, k')
    ensures Keys(Assign(m, k, v)) == if k in Keys(m) then Keys(m) else Keys(m) + [k]
    ensures Drop(Assign(m, k, v), {k}) == Drop(m, {k})
    ensures DistinctKeys(m) ==> DistinctKeys(Assign(m, k, v))
    ensures Lookup(m, k) == Some(v) ==> Assign(m, k, v) == m
  {
    AssignLookup(m, k, v);
    AssignKeys(m, k, v);
    AssignDrop(m, k, v);
    if DistinctKeys(m) {
      AssignDistinct(m, k, v);
    }
    if Lookup(m, k) == Some(v) {
      AssignUnchanged(m, k, v);
    }
  }

  /** Assignment keeps the existing keys as a prefix, and anything past the
      old end is the assigned key. */
  lemma AssignPrefix(m: seq<Entry>, k: string, v: Value)
    ensures Keys(m) <= Keys(Assign(m, k, v))
    ensures forall i :: |m| <= i < |Assign(m, k, v)| ==> Assign(m, k, v)[i].0 == k
  {
    AssignKeys(m, k, v);
    var r := Assign(m, k, v);
    forall i | |m| <= i < |r|
      ensures r[i].0 == k
    {
      assert Keys(r) == Keys(m) + [k] && i == |m|;
      assert Keys(r)[i] == k;
    }
  }

  /** `m` with its first entry under `k` taken out. */
  /** The keys of `order`, in that order, that are not among `present`: what
      assigning to each key of `order` in turn appends to a mapping with the
      keys `present`. */
  function NewKeys(order: seq<string>, present: seq<string>): seq<string>
    decreases |order|
  {
    if |order| == 0 then []
    else (if order[0] in present then [] else [order[0]]) + NewKeys(order[1..], present)
  }

  /** Assigning to `k` and then to the keys `later` appends the same keys as
      assigning to the keys `[k] + later` in one go. */
  lemma AssignThenKeys(m: seq<Entry>, k: string, v: Value, later: seq<string>)
    requires k !in later
    ensures Keys(Assign(m, k, v)) + NewKeys(later, Keys(Assign(m, k, v)))
         == Keys(m) + NewKeys([k] + later, Keys(m))
  {
    var ks := Keys(m);
    var head: seq<string> := if k in ks then [] else [k];
    var after := Keys(Assign(m, k, v));
    assert after == ks + head by { AssignKeys(m, k, v); }
    assert NewKeys(later, after) == NewKeys(later, ks) by {
      if k in ks {
        assert ks + head == ks;
      } else {
        NewKeysIgnores(later, ks, k);
      }
    }
    assert NewKeys([k] + later, ks) == head + NewKeys(later, ks) by {
      assert ([k] + later)[1..] == later;
    }
    AppendAssoc(ks, head, NewKeys(later, ks));
  }

  lemma AppendAssoc(a: seq<string>, b: seq<string>, c: seq<string>)
    ensures (a + b) + c == a + (b + c)
  {
  }

  lemma {:induction false} NewKeysIgnores(order: seq<string>, present: seq<string>, k: string)
    requires k !in order
    ensures NewKeys(order, present + [k]) == NewKeys(order, present)
    decreases |order|
  {
    if |order| > 0 {
      NewKeysIgnores(order[1..], present, k);
    }
  }

  function RemoveFirst(m: seq<Entry>, k: string): (r: seq<Entry>)
    ensures forall k' :: k' != k ==> Lookup(r, k') == Lookup(m, k')
    ensures forall x :: x in Keys(r) ==> x in Keys(m)
    ensures k in Keys(m) ==> multiset(r) + multiset{(k, Lookup(m, k).value)} == multiset(m)
    decreases |m|
  {
    if |m| == 0 then []
    else if m[0].0 == k then
      assert m == [m[0]] + m[1..];
      m[1..]
    else
      var rest := RemoveFirst(m[1..], k);
      assert ([m[0]] + rest)[1..] == rest;
      assert m == [m[0]] + m[1..];
      [m[0]] + rest
  }

  /** With distinct keys, removing the first entry under `k` removes every
      entry under `k`. */
  lemma {:induction false} RemoveFirstDistinct(m: seq<Entry>, k: string)
    ensures DistinctKeys(m) ==>
      && DistinctKeys(RemoveFirst(m, k)) && k !in Keys(RemoveFirst(m, k))
      && RemoveFirst(m, k) == Drop(m, {k})
    decreases |m|
  {
    if |m| > 0 && DistinctKeys(m) {
      if m[0].0 == k {
        DistinctDropNothing(m, k);
      } else {
        var rest := RemoveFirst(m[1..], k);
        RemoveFirstDistinct(m[1..], k);
        assert ([m[0]] + rest)[1..] == rest;
      }
    }
  }

  lemma {:induction false} DropNothing(m: seq<Entry>, ks: set<string>)
    requires forall i :: 0 <= i < |m| ==> m[i].0 !in ks
    ensures Drop(m, ks) == m
    decreases |m|
  {
    if |m| > 0 {
      DropNothing(m[1..], ks);
      assert m == [m[0]] + m[1..];
    }
  }

  lemma DistinctDropNothing(m: seq<Entry>, k: string)
    requires |m| > 0 && m[0].0 == k
    ensures DistinctKeys(m) ==> Drop(m, {k}) == Drop(m[1..], {k}) == m[1..]
  {
    if DistinctKeys(m) {
      assert forall i :: 0 <= i < |m[1..]| ==> m[1..][i].0 == Keys(m[1..])[i];
      DropNothing(m[1..], {k});
    }
  }

  lemma {:induction false} SelectAbsent(m: seq<Entry>, k: string)
    requires k !in Keys(m)
    ensures Select(m, k) == []
    decreases |m|
  {
    if |m| > 0 {
      SelectAbsent(m[1..], k);
    }
  }

  /** In a mapping with distinct keys, the entries under `k` are at most the
      one `Lookup` finds. */
  lemma {:induction false} SelectDistinct(m: seq<Entry>, k: string)
    ensures DistinctKeys(m) ==>
      Select(m, k) == if k in Keys(m) then [(k, Lookup(m, k).value)] else []
    decreases |m|
  {
    if |m| == 0 || !DistinctKeys(m) {
    } else if m[0].0 == k {
      SelectAbsent(m[1..], k);
    } else {
      SelectDistinct(m[1..], k);
    }
  }

  lemma {:induction false} SelectAppend(a: seq<Entry>, b: seq<Entry>, k: string)
    ensures Select(a + b, k) == Select(a, k) + Select(b, k)
    decreases |a|
  {
    if |a| == 0 {
      assert a + b == b;
    } else {
      var h := if a[0].0 == k then [a[0]] else [];
      calc {
        Select(a + b, k);
        h + Select((a + b)[1..], k);
        { assert (a + b)[1..] == a[1..] + b; SelectAppend(a[1..], b, k); }
        h + (Select(a[1..], k) + Select(b, k));
        (h + Select(a[1..], k)) + Select(b, k);
      }
    }
  }

  lemma {:induction false} DropAppend(a: seq<Entry>, b: seq<Entry>, ks: set<string>)
    ensures Drop(a + b, ks) == Drop(a, ks) + Drop(b, ks)
    decreases |a|
  {
    if |a| == 0 {
      assert a + b == b;
    } else {
      var h := if a[0].0 in ks then [] else [a[0]];
      calc {
        Drop(a + b, ks);
        h + Drop((a + b)[1..], ks);
        { assert (a + b)[1..] == a[1..] + b; DropAppend(a[1..], b, ks); }
        h + (Drop(a[1..], ks) + Drop(b, ks));
        (h + Drop(a[1..], ks)) + Drop(b, ks);
      }
    }
  }

  lemma {:induction false} DropDrop(m: seq<Entry>, a: set<string>, b: set<string>)
    ensures Drop(Drop(m, a), b) == Drop(m, a + b)
    decreases |m|
  {
    if |m| > 0 {
      DropDrop(m[1..], a, b);
      var head := if m[0].0 in a then [] else [m[0]];
      DropAppend(head, Drop(m[1..], a), b);
    }
  }

  lemma {:induction false} SelectDrop(m: seq<Entry>, ks: set<string>, k: string)
    ensures Select(Drop(m, ks), k) == if k in ks then [] else Select(m, k)
    decreases |m|
  {
    if |m| > 0 {
      SelectDrop(m[1..], ks, k);
      var head := if m[0].0 in ks then [] else [m[0]];
      SelectAppend(head, Drop(m[1..], ks), k);
    }
  }

  lemma {:induction false} SelectSelect(m: seq<Entry>, k: string, k': string)
    ensures Select(Select(m, k), k') == if k == k' then Select(m, k) else []
    decreases |m|
  {
    if |m| > 0 {
      SelectSelect(m[1..], k, k');
      var head := if m[0].0 == k then [m[0]] else [];
      SelectAppend(head, Select(m[1..], k), k');
    }
  }

  lemma {:induction false} DropSelect(m: seq<Entry>, k: string, ks: set<string>)
    ensures Drop(Select(m, k), ks) == if k in ks then [] else Select(m, k)
    decreases |m|
  {
    if |m| > 0 {
      DropSelect(m[1..], k, ks);
      var head := if m[0].0 == k then [m[0]] else [];
      DropAppend(head, Select(m[1..], k), ks);
    }
  }

  /** `m.move_to_end(k, last=False)`: the entry under `k` moves to the
      front; the others keep their order. The source only calls it for a key
      that is present (`move_to_end` raises otherwise). */
  function MoveToFront(m: seq<Entry>, k: string): (r: seq<Entry>)
    requires k in Keys(m)
    ensures multiset(r) == multiset(m)
    ensures forall k' :: Lookup(r, k') == Lookup(m, k')
    ensures DistinctKeys(m) ==> DistinctKeys(r) && r == Select(m, k) + Drop(m, {k})
  {
    var rest := RemoveFirst(m, k);
    RemoveFirstDistinct(m, k);
    var r := [(k, Lookup(m, k).value)] + rest;
    assert r[1..] == rest;
    SelectDistinct(m, k);
    r
  }

  /** `m.get(k)` finds the first entry under `k`: when `k` first occurs at
      index `i`, the value found is the one stored there. */
  lemma {:induction false} LookupFirst(m: seq<Entry>, k: string, i: nat)
    requires i < |m| && m[i].0 == k && k !in Keys(m[..i])
    ensures Lookup(m, k) == Some(m[i].1)
    decreases i
  {
    if i > 0 {
      assert Keys(m[..i])[0] == m[0].0;
      assert m[1..][..i - 1] == m[..i][1..];
      assert Keys(m[..i])[1..] == Keys(m[..i][1..]);
      LookupFirst(m[1..], k, i - 1);
    }
  }

  /** Two entry lists with the same keys in the same order are alike in
      having distinct keys. */
  lemma {:induction false} DistinctSameKeys(a: seq<Entry>, b: seq<Entry>)
    requires Keys(a) == Keys(b) && DistinctKeys(a)
    ensures DistinctKeys(b)
    decreases |a|
  {
    if |a| > 0 {
      assert Keys(a)[1..] == Keys(a[1..]) && Keys(b)[1..] == Keys(b[1..]);
      DistinctSameKeys(a[1..], b[1..]);
    }
  }

  /** A node the loader can build: no mapping at any depth holds a key
      twice, and every non-string scalar is a text `plain` accepts, that
      is, one the loader reads back as a number, boolean or date rather
      than as a string. */
  predicate WellFormedValue(v: Value, plain: string -> bool)
    decreases v
  {
    match v
    case Null => true
    case Str(_) => true
    case Scalar(repr) => plain(repr)
    case List(items) => forall i :: 0 <= i < |items| ==> WellFormedValue(items[i], plain)
    case Map(entries) =>
      && DistinctKeys(entries)
      && forall i :: 0 <= i < |entries| ==> WellFormedValue(entries[i].1, plain)
  }

  /** A root mapping the loader can build. */
  predicate WellFormed(m: seq<Entry>, plain: string -> bool)
  {
    WellFormedValue(Map(m), plain)
  }

  /** Every value stored in a well-formed mapping is well formed. */
  lemma WellFormedMember(m: seq<Entry>, e: Entry, plain: string -> bool)
    requires WellFormed(m, plain) && e in m
    ensures WellFormedValue(e.1, plain)
  {
    var i :| 0 <= i < |m| && m[i] == e;
  }

  lemma {:induction false} AssignEntries(m: seq<Entry>, k: string, v: Value)
    ensures forall e :: e in Assign(m, k, v) ==> e == (k, v) || e in m
    decreases |m|
  {
    if |m| > 0 && m[0].0 != k {
      AssignEntries(m[1..], k, v);
      assert m == [m[0]] + m[1..];
    } else if |m| > 0 {
      assert m == [m[0]] + m[1..];
    }
  }

  /** Assigning a well-formed value keeps a mapping well formed. */
  lemma AssignWellFormed(m: seq<Entry>, k: string, v: Value, plain: string -> bool)
    requires WellFormed(m, plain) && WellFormedValue(v, plain)
    ensures WellFormed(Assign(m, k, v), plain)
  {
    var r := Assign(m, k, v);
    AssignDistinct(m, k, v);
    AssignEntries(m, k, v);
    forall i | 0 <= i < |r|
      ensures WellFormedValue(r[i].1, plain)
    {
      if r[i] != (k, v) {
        WellFormedMember(m, r[i], plain);
      }
    }
  }

  /** A rearrangement of a well-formed mapping that keeps its keys distinct
      is well formed. */
  lemma PermutationWellFormed(m: seq<Entry>, r: seq<Entry>, plain: string -> bool)
    requires WellFormed(m, plain) && multiset(r) == multiset(m) && DistinctKeys(r)
    ensures WellFormed(r, plain)
  {
    forall i | 0 <= i < |r|
      ensures WellFormedValue(r[i].1, plain)
    {
      assert r[i] in multiset(r);
      WellFormedMember(m, r[i], plain);
    }
  }
}
