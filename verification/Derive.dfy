/**
  The code `minicbor-derive` generates, read as functions of a list of fields. A written struct is a list of slots
  in index order, each with the item of its value or nil; a reader is a list of fields, each with its own decoder.
 */
module Derive {
  import opened Wire
  import opened Items
  import opened Keys

  const NULL_ITEM: Item := Prim(Imm, 22)

  /** A field of a written value: its index, negative only under map encoding, and the item of its value or nil. */
  datatype Slot = Slot(index: i64, value: Option<Item>)

  /** The slots of an array-encoded struct: in index order, and without negative indices. */
  ghost predicate Sorted(ws: seq<Slot>) {
    (forall i, j :: 0 <= i < j < |ws| ==> ws[i].index < ws[j].index)
    && forall i :: 0 <= i < |ws| ==> ws[i].index >= 0
  }

  /** Values that are not nil are whole items other than null. */
  ghost predicate ValidSlots(ws: seq<Slot>) {
    forall i :: 0 <= i < |ws| ==> ws[i].value.Some? ==> Valid(ws[i].value.value) && ws[i].value.value != NULL_ITEM
  }

  /** The value written for an index, if there is one. */
  function Lookup(ws: seq<Slot>, index: int): Option<Item> {
    if ws == [] then None
    else if ws[|ws| - 1].index == index then ws[|ws| - 1].value
    else Lookup(ws[..|ws| - 1], index)
  }

  /** One more than the largest index with a value. */
  function Count(ws: seq<Slot>): (n: nat)
    ensures n <= I64_MAX + 1
  {
    if ws == [] then 0
    else if ws[|ws| - 1].value.Some? && ws[|ws| - 1].index >= 0 then ws[|ws| - 1].index + 1
    else Count(ws[..|ws| - 1])
  }

  function OrNull(v: Option<Item>): Item {
    if v.Some? then v.value else NULL_ITEM
  }

  /** The elements of the array: each value at its own index, null everywhere else. */
  function Elements(ws: seq<Slot>): (xs: seq<Item>)
    ensures |xs| == Count(ws) && forall i :: 0 <= i < |xs| ==> xs[i] == OrNull(Lookup(ws, i))
  {
    seq(Count(ws), i requires 0 <= i < Count(ws) => OrNull(Lookup(ws, i)))
  }

  function StructItem(ws: seq<Slot>): Item
  {
    Coll(false, Preferred(Count(ws)), Elements(ws))
  }

  lemma {:induction false} LookupValid(ws: seq<Slot>, index: int)
    requires ValidSlots(ws)
    ensures Lookup(ws, index).Some? ==> Valid(Lookup(ws, index).value) && Lookup(ws, index).value != NULL_ITEM
  {
    if ws != [] && ws[|ws| - 1].index != index {
      LookupValid(ws[..|ws| - 1], index);
    }
  }

  /** Beyond the announced count there is nothing to lose. */
  lemma {:induction false} NothingBeyond(ws: seq<Slot>, index: nat)
    requires Sorted(ws) && index >= Count(ws)
    ensures Lookup(ws, index) == None
  {
    if ws != [] {
      var k := |ws| - 1;
      if ws[k].value.Some? {
        AboveAll(ws[..k], index);
      } else {
        NothingBeyond(ws[..k], index);
      }
    }
  }

  lemma {:induction false} AboveAll(ws: seq<Slot>, index: int)
    requires forall i :: 0 <= i < |ws| ==> ws[i].index != index
    ensures Lookup(ws, index) == None
  {
    if ws != [] {
      AboveAll(ws[..|ws| - 1], index);
    }
  }

  lemma {:induction false} AllValid(xs: seq<Item>)
    requires forall i :: 0 <= i < |xs| ==> Valid(xs[i])
    ensures ValidAll(xs)
  {
    if xs != [] {
      AllValid(xs[1..]);
    }
  }

  /** Whatever is nil, the struct is written as one well-formed array. */
  lemma {:induction false} StructIsValid(ws: seq<Slot>)
    requires ValidSlots(ws)
    ensures Valid(StructItem(ws))
  {
    forall i | 0 <= i < Count(ws) ensures Valid(Elements(ws)[i]) {
      LookupValid(ws, i);
    }
    AllValid(Elements(ws));
  }

  // ----- encoding -----

  /**
    The generated encoder for array encoding. The first loop finds the largest index with a value; the second
    walks the fields with the gaps before each one, as computed when the code was generated.
   */
  method EncodeFields(ws: seq<Slot>) returns (header: nat, xs: seq<Item>)
    requires Sorted(ws)
    ensures header == |xs| && xs == Elements(ws)
  {
    var maxIndex: Option<nat> := None;
    for j := 0 to |ws|
      invariant Count(ws[..j]) == if maxIndex.Some? then maxIndex.value + 1 else 0
    {
      assert ws[..j + 1][..j] == ws[..j];
      if ws[j].value.Some? {
        maxIndex := Some(ws[j].index);
      }
    }
    assert ws[..|ws|] == ws;
    xs := [];
    if maxIndex == None {
      return 0, [];
    }
    var m := maxIndex.value;
    header := m + 1;
    var first, k: nat := true, 0;
    for j := 0 to |ws|
      invariant first <==> j == 0
      invariant k == if j == 0 then 0 else ws[j - 1].index
      invariant |xs| == if j == 0 then 0 else if k <= m then k + 1 else m + 1
      invariant forall i :: 0 <= i < |xs| ==> xs[i] == OrNull(Lookup(ws, i))
    {
      var idx := ws[j].index;
      var gaps := if first then idx - k else idx - k - 1;
      first := false;
      if idx <= m {
        ghost var start := |xs|;
        for g := 0 to gaps
          invariant |xs| == start + g
          invariant forall i :: 0 <= i < |xs| ==> xs[i] == OrNull(Lookup(ws, i))
        {
          NotAnIndex(ws, j, start + g);
          xs := xs + [NULL_ITEM];
        }
        LookupHere(ws, j);
        xs := xs + [OrNull(ws[j].value)];
      } else {
        MaxIsAnIndex(ws, j);
      }
      k := idx;
    }
    LastIsEnough(ws);
  }

  lemma {:induction false} LookupHere(ws: seq<Slot>, j: nat)
    requires Sorted(ws) && j < |ws|
    ensures Lookup(ws, ws[j].index) == ws[j].value
  {
    if j < |ws| - 1 {
      LookupHere(ws[..|ws| - 1], j);
    }
  }

  /** An index between two neighbouring fields belongs to none. */
  lemma {:induction false} NotAnIndex(ws: seq<Slot>, j: nat, index: nat)
    requires Sorted(ws) && j < |ws| && index < ws[j].index && (j > 0 ==> index > ws[j - 1].index)
    ensures Lookup(ws, index) == None
  {
    forall i | 0 <= i < |ws| ensures ws[i].index != index {
    }
    AboveAll(ws, index);
  }

  /** The largest index with a value is the index of a field, so no field skips over it. */
  lemma {:induction false} MaxIsAnIndex(ws: seq<Slot>, j: nat)
    requires Sorted(ws) && j < |ws| && Count(ws) > 0 && ws[j].index >= Count(ws)
    ensures j > 0 && ws[j - 1].index >= Count(ws) - 1
  {
    var k := |ws| - 1;
    if ws[k].value.Some? {
    } else if j < k {
      MaxIsAnIndex(ws[..k], j);
    } else {
      LastIsEnough(ws[..k]);
    }
  }

  lemma {:induction false} LastIsEnough(ws: seq<Slot>)
    requires Sorted(ws) && Count(ws) > 0
    ensures ws != [] && ws[|ws| - 1].index >= Count(ws) - 1
  {
    var k := |ws| - 1;
    if ws[k].value == None {
      LastIsEnough(ws[..k]);
    }
  }
}
