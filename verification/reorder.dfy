/** `rearrange_stack_content`: the top-level sections `version`, `services`,
    `volumes`, `networks` move to the front of the document, in that order. */
module Reorder {
  import opened Yaml

  /** The canonical order of the top-level sections. */
  const DesiredOrder: seq<string> := ["version", "services", "volumes", "networks"]

  /** The loop `for key in reversed(ks): if key in m: m.move_to_end(key,
      last=False)`. */
  function MoveKeysToFront(m: seq<Entry>, ks: seq<string>): (r: seq<Entry>)
    ensures multiset(r) == multiset(m)
    ensures forall k :: Lookup(r, k) == Lookup(m, k)
    ensures DistinctKeys(m) ==> DistinctKeys(r)
    decreases |ks|
  {
    if |ks| == 0 then m
    else
      var k := ks[|ks| - 1];
      MoveKeysToFront(if k in Keys(m) then MoveToFront(m, k) else m, ks[..|ks| - 1])
  }

  /** The rearranged stack: the same entries, every key keeps its value, and
      keys stay distinct. */
  function Rearrange(stack: seq<Entry>): (r: seq<Entry>)
    ensures multiset(r) == multiset(stack)
    ensures forall k :: Lookup(r, k) == Lookup(stack, k)
    ensures DistinctKeys(stack) ==> DistinctKeys(r)
  {
    MoveKeysToFront(stack, DesiredOrder)
  }

  /** The entries of `m` under the keys `ks`, taken in the order of `ks`. */
  function SelectAll(m: seq<Entry>, ks: seq<string>): seq<Entry>
    decreases |ks|
  {
    if |ks| == 0 then [] else Select(m, ks[0]) + SelectAll(m, ks[1..])
  }

  predicate Unique(ks: seq<string>)
  {
    forall i, j :: 0 <= i < j < |ks| ==> ks[i] != ks[j]
  }

  lemma {:induction false} SelectAllSnoc(m: seq<Entry>, ks: seq<string>, k: string)
    ensures SelectAll(m, ks + [k]) == SelectAll(m, ks) + Select(m, k)
    decreases |ks|
  {
    if |ks| == 0 {
      assert ks + [k] == [k];
    } else {
      assert (ks + [k])[1..] == ks[1..] + [k];
      SelectAllSnoc(m, ks[1..], k);
    }
  }

  /** Taking the keys `ks` from `a + b` when `a` holds none of them. */
  lemma {:induction false} SelectAllSkip(a: seq<Entry>, b: seq<Entry>, ks: seq<string>)
    requires forall i :: 0 <= i < |ks| ==> Select(a, ks[i]) == []
    ensures SelectAll(a + b, ks) == SelectAll(b, ks)
    decreases |ks|
  {
    if |ks| > 0 {
      var rest := ks[1..];
      assert forall i :: 0 <= i < |rest| ==> rest[i] == ks[i + 1];
      SelectAllSkip(a, b, rest);
      SelectAppend(a, b, ks[0]);
      assert Select(a + b, ks[0]) == Select(b, ks[0]);
    }
  }

  lemma {:induction false} SelectAllDrop(m: seq<Entry>, ks: seq<string>, gone: set<string>)
    requires forall i :: 0 <= i < |ks| ==> ks[i] !in gone
    ensures SelectAll(Drop(m, gone), ks) == SelectAll(m, ks)
    decreases |ks|
  {
    if |ks| > 0 {
      SelectDrop(m, gone, ks[0]);
      SelectAllDrop(m, ks[1..], gone);
    }
  }

  /** The set of keys listed in `ks`. */
  function SetOf(ks: seq<string>): (r: set<string>)
    ensures forall x :: x in r <==> x in ks
    decreases |ks|
  {
    if |ks| == 0 then {} else {ks[0]} + SetOf(ks[1..])
  }

  /** One move-to-front step, whether or not the key is present. */
  lemma StepLaw(m: seq<Entry>, k: string)
    requires DistinctKeys(m)
    ensures (if k in Keys(m) then MoveToFront(m, k) else m) == Select(m, k) + Drop(m, {k})
  {
    if k !in Keys(m) {
      SelectAbsent(m, k);
      assert forall i :: 0 <= i < |m| ==> m[i].0 == Keys(m)[i];
      DropNothing(m, {k});
    }
  }

  /** After moving `k` to the front, the other keys are found as before. */
  lemma StepSelectAll(m: seq<Entry>, k: string, init: seq<string>)
    requires k !in init
    ensures SelectAll(Select(m, k) + Drop(m, {k}), init) == SelectAll(m, init)
  {
    forall i | 0 <= i < |init|
      ensures Select(Select(m, k), init[i]) == []
    {
      SelectSelect(m, k, init[i]);
    }
    SelectAllSkip(Select(m, k), Drop(m, {k}), init);
    SelectAllDrop(m, init, {k});
  }

  /** After moving `k` to the front, dropping the keys `rest` leaves `k`'s
      entry in front of the entries under neither. */
  lemma StepDrop(m: seq<Entry>, k: string, rest: set<string>)
    requires k !in rest
    ensures Drop(Select(m, k) + Drop(m, {k}), rest) == Select(m, k) + Drop(m, rest + {k})
  {
    DropAppend(Select(m, k), Drop(m, {k}), rest);
    DropSelect(m, k, rest);
    DropDrop(m, {k}, rest);
    assert {k} + rest == rest + {k};
  }

  /** The moves leave the keys `ks` in front, in the order of `ks`, followed
      by every other entry in its original order. */
  lemma {:induction false} MoveKeysToFrontLaw(m: seq<Entry>, ks: seq<string>)
    requires DistinctKeys(m) && Unique(ks)
    ensures MoveKeysToFront(m, ks) == SelectAll(m, ks) + Drop(m, SetOf(ks))
    decreases |ks|
  {
    if |ks| == 0 {
      DropNothing(m, {});
    } else {
      var k := ks[|ks| - 1];
      var init := ks[..|ks| - 1];
      assert ks == init + [k];
      assert Unique(init) && k !in init;
      var m' := if k in Keys(m) then MoveToFront(m, k) else m;
      MoveKeysToFrontLaw(m', init);
      StepLaw(m, k);
      StepAll(m, k, init);
    }
  }

  /** One step of the loop, moving `k` to the front before the keys `init`
      are handled, keeps the shape `MoveKeysToFrontLaw` states. */
  lemma StepAll(m: seq<Entry>, k: string, init: seq<string>)
    requires k !in init
    ensures var m' := Select(m, k) + Drop(m, {k});
      SelectAll(m', init) + Drop(m', SetOf(init))
      == SelectAll(m, init + [k]) + Drop(m, SetOf(init + [k]))
  {
    var front := Select(m, k);
    var m' := front + Drop(m, {k});
    var a := SelectAll(m, init);
    var b := Drop(m, SetOf(init) + {k});
    assert SelectAll(m', init) == a by { StepSelectAll(m, k, init); }
    assert Drop(m', SetOf(init)) == front + b by { StepDrop(m, k, SetOf(init)); }
    assert SelectAll(m, init + [k]) == a + front by { SelectAllSnoc(m, init, k); }
    assert Drop(m, SetOf(init + [k])) == b by { SetOfSnoc(init, k); }
    Regroup(SelectAll(m', init), Drop(m', SetOf(init)),
            SelectAll(m, init + [k]), Drop(m, SetOf(init + [k])), a, front, b);
  }

  lemma Regroup(l1: seq<Entry>, l2: seq<Entry>, r1: seq<Entry>, r2: seq<Entry>,
                a: seq<Entry>, f: seq<Entry>, b: seq<Entry>)
    requires l1 == a && l2 == f + b && r1 == a + f && r2 == b
    ensures l1 + l2 == r1 + r2
  {
    assert a + (f + b) == (a + f) + b;
  }

  lemma SetOfSnoc(ks: seq<string>, k: string)
    ensures SetOf(ks + [k]) == SetOf(ks) + {k}
  {
  }

  /** The canonical order: the entries under `version`, `services`,
      `volumes` and `networks`, in that order, then every other entry in its
      original relative order. */
  function Canonical(stack: seq<Entry>): seq<Entry>
  {
    Select(stack, "version") + Select(stack, "services")
    + Select(stack, "volumes") + Select(stack, "networks")
    + Drop(stack, {"version", "services", "volumes", "networks"})
  }

  /** The order the source promises: whichever of `version`, `services`,
      `volumes`, `networks` are present, in that order, then every other
      entry in its original relative order. */
  lemma RearrangeLaw(stack: seq<Entry>)
    requires DistinctKeys(stack)
    ensures Rearrange(stack) == Canonical(stack)
  {
    RearrangeSplits(stack);
    CanonicalSplits(stack);
  }

  /** Rearranging a document the loader can build gives one again. */
  lemma RearrangeWellFormed(stack: seq<Entry>, plain: string -> bool)
    requires WellFormed(stack, plain)
    ensures WellFormed(Rearrange(stack), plain)
  {
    PermutationWellFormed(stack, Rearrange(stack), plain);
  }

  lemma RearrangeSplits(stack: seq<Entry>)
    requires DistinctKeys(stack)
    ensures Rearrange(stack) == SelectAll(stack, DesiredOrder) + Drop(stack, SetOf(DesiredOrder))
  {
    MoveKeysToFrontLaw(stack, DesiredOrder);
  }

  lemma CanonicalSplits(stack: seq<Entry>)
    ensures SelectAll(stack, DesiredOrder) + Drop(stack, SetOf(DesiredOrder)) == Canonical(stack)
  {
    DesiredOrderUnfolds(stack);
    Regroup4(Select(stack, "version"), Select(stack, "services"), Select(stack, "volumes"),
             Select(stack, "networks"), Drop(stack, {"version", "services", "volumes", "networks"}));
  }

  lemma Regroup4(a: seq<Entry>, b: seq<Entry>, c: seq<Entry>, d: seq<Entry>, e: seq<Entry>)
    ensures (a + (b + (c + d))) + e == a + b + c + d + e
  {
  }

  lemma DesiredOrderUnfolds(stack: seq<Entry>)
    ensures SelectAll(stack, DesiredOrder)
         == Select(stack, "version") + (Select(stack, "services")
          + (Select(stack, "volumes") + Select(stack, "networks")))
    ensures SetOf(DesiredOrder) == {"version", "services", "volumes", "networks"}
  {
    var o1: seq<string> := ["services", "volumes", "networks"];
    var o2: seq<string> := ["volumes", "networks"];
    var o3: seq<string> := ["networks"];
    assert DesiredOrder[1..] == o1 && o1[1..] == o2 && o2[1..] == o3 && o3[1..] == [];
    assert SelectAll(stack, o3) == Select(stack, "networks");
  }

  lemma CanonicalSelect(stack: seq<Entry>, k: string)
    requires k in {"version", "services", "volumes", "networks"}
    ensures Select(Canonical(stack), k) == Select(stack, k)
  {
    var front := {"version", "services", "volumes", "networks"};
    var sv, ss, sl, sn := Select(stack, "version"), Select(stack, "services"),
                          Select(stack, "volumes"), Select(stack, "networks");
    SelectAppend(sv + ss + sl + sn, Drop(stack, front), k);
    SelectAppend(sv + ss + sl, sn, k);
    SelectAppend(sv + ss, sl, k);
    SelectAppend(sv, ss, k);
    SelectSelect(stack, "version", k);
    SelectSelect(stack, "services", k);
    SelectSelect(stack, "volumes", k);
    SelectSelect(stack, "networks", k);
    SelectDrop(stack, front, k);
  }

  lemma CanonicalDrop(stack: seq<Entry>)
    ensures Drop(Canonical(stack), {"version", "services", "volumes", "networks"})
         == Drop(stack, {"version", "services", "volumes", "networks"})
  {
    var front := {"version", "services", "volumes", "networks"};
    var sv, ss, sl, sn := Select(stack, "version"), Select(stack, "services"),
                          Select(stack, "volumes"), Select(stack, "networks");
    DropAppend(sv + ss + sl + sn, Drop(stack, front), front);
    DropAppend(sv + ss + sl, sn, front);
    DropAppend(sv + ss, sl, front);
    DropAppend(sv, ss, front);
    DropSelect(stack, "version", front);
    DropSelect(stack, "services", front);
    DropSelect(stack, "volumes", front);
    DropSelect(stack, "networks", front);
    DropDrop(stack, front, front);
    assert front + front == front;
  }

  /** Rearranging an already rearranged stack changes nothing. */
  lemma RearrangeIdempotent(stack: seq<Entry>)
    requires DistinctKeys(stack)
    ensures Rearrange(Rearrange(stack)) == Rearrange(stack)
  {
    var r := Rearrange(stack);
    RearrangeLaw(stack);
    RearrangeLaw(r);
    assert r == Canonical(stack);
    CanonicalSelect(stack, "version");
    CanonicalSelect(stack, "services");
    CanonicalSelect(stack, "volumes");
    CanonicalSelect(stack, "networks");
    CanonicalDrop(stack);
  }
}
