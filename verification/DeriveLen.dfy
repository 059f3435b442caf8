/** The derived length computations, against the bytes the derived encoders write. */
module DeriveLen {
  import opened Wire
  import opened Items
  import opened Encoding
  import opened Keys
  import opened Derive
  import opened DeriveMap

  ghost predicate CanonicalSlots(ws: seq<Slot>) {
    forall i :: 0 <= i < |ws| ==> ws[i].value.Some? ==> Canonical(ws[i].value.value)
  }

  lemma {:induction false} LensConcat(xs: seq<Item>, ys: seq<Item>)
    ensures CborLens(xs + ys) == CborLens(xs) + CborLens(ys)
  {
    hide CborLen;
    if xs == [] {
      assert xs + ys == ys;
    } else {
      LensConcat(xs[1..], ys);
      assert (xs + ys)[1..] == xs[1..] + ys;
    }
  }

  // ----- array encoding -----

  function Nulls(n: nat): (xs: seq<Item>)
    ensures |xs| == n && forall i :: 0 <= i < n ==> xs[i] == NULL_ITEM
  {
    seq(n, i => NULL_ITEM)
  }

  lemma {:induction false} NullsLen(n: nat)
    ensures CborLens(Nulls(n)) == n
  {
    if n > 0 {
      NullsLen(n - 1);
      assert Nulls(n)[1..] == Nulls(n - 1);
    }
  }

  lemma {:induction false} CountBelow(ws: seq<Slot>, index: nat)
    requires forall i :: 0 <= i < |ws| ==> ws[i].index < index
    ensures Count(ws) <= index
  {
    if ws != [] {
      CountBelow(ws[..|ws| - 1], index);
    }
  }

  /** What a value adds to the array: nulls up to its index, and itself. */
  lemma {:induction false} ElementsGrow(ws: seq<Slot>, j: nat)
    requires Sorted(ws) && j < |ws| && ws[j].value.Some?
    ensures Count(ws[..j]) <= ws[j].index && Count(ws[..j + 1]) == ws[j].index + 1
    ensures Elements(ws[..j + 1]) == Elements(ws[..j]) + Nulls(ws[j].index - Count(ws[..j])) + [ws[j].value.value]
  {
    var pre := ws[..j];
    assert ws[..j + 1][..j] == pre;
    CountBelow(pre, ws[j].index);
    var xs, ys := Elements(ws[..j + 1]), Elements(pre) + Nulls(ws[j].index - Count(pre)) + [ws[j].value.value];
    forall i | 0 <= i < |xs| ensures xs[i] == ys[i] {
      if Count(pre) <= i < ws[j].index {
        NothingBeyond(pre, i);
      }
    }
  }

  lemma {:induction false} NilAddsNothing(ws: seq<Slot>, j: nat)
    requires Sorted(ws) && j < |ws| && ws[j].value.None?
    ensures Count(ws[..j + 1]) == Count(ws[..j]) && Elements(ws[..j + 1]) == Elements(ws[..j])
  {
    assert ws[..j + 1][..j] == ws[..j];
    CountBelow(ws[..j], ws[j].index);
  }

  /** The generated `cbor_len` of an array-encoded struct: one byte for every index passed over. */
  method ArrayLen(ws: seq<Slot>) returns (len: nat)
    requires Sorted(ws)
    ensures len == CborLen(StructItem(ws))
    ensures ValidSlots(ws) && CanonicalSlots(ws) ==> Valid(StructItem(ws)) && len == |Encode(StructItem(ws))|
  {
    hide CborLens, CborLen, Count, Elements, Sorted, ValidSlots, CanonicalSlots;
    var num: nat, sum: nat := 0, 0;
    EmptyLens(ws[..0]);
    for j := 0 to |ws|
      invariant num == Count(ws[..j]) && sum == CborLens(Elements(ws[..j]))
    {
      if ws[j].value.Some? {
        var n, v := ws[j].index, ws[j].value.value;
        ElementsGrow(ws, j);
        LensConcat(Elements(ws[..j]) + Nulls(n - num), [v]);
        LensConcat(Elements(ws[..j]), Nulls(n - num));
        NullsLen(n - num);
        SingleLen(v);
        sum := sum + (n - num) + CborLen(v);
        num := n + 1;
      } else {
        NilAddsNothing(ws, j);
      }
    }
    assert ws[..|ws|] == ws;
    len := UintLen(num) + sum;
    StructLen(ws);
  }

  lemma {:induction false} EmptyLens(ws: seq<Slot>)
    requires ws == []
    ensures Count(ws) == 0 && CborLens(Elements(ws)) == 0
  {
  }

  lemma {:induction false} SingleLen(x: Item)
    ensures CborLens([x]) == CborLen(x)
  {
  }

  lemma {:induction false} StructLen(ws: seq<Slot>)
    ensures CborLen(StructItem(ws)) == UintLen(Count(ws)) + CborLens(Elements(ws))
    ensures ValidSlots(ws) && CanonicalSlots(ws) ==>
      Valid(StructItem(ws)) && CborLen(StructItem(ws)) == |Encode(StructItem(ws))|
  {
    if ValidSlots(ws) && CanonicalSlots(ws) {
      StructIsValid(ws);
      forall i | 0 <= i < Count(ws) ensures Canonical(Elements(ws)[i]) {
        LookupCanonical(ws, i);
      }
      CborLenIsExact(StructItem(ws));
    }
  }

  lemma {:induction false} LookupCanonical(ws: seq<Slot>, index: int)
    requires CanonicalSlots(ws)
    ensures Lookup(ws, index).Some? ==> Canonical(Lookup(ws, index).value)
  {
    if ws != [] && ws[|ws| - 1].index != index {
      LookupCanonical(ws[..|ws| - 1], index);
    }
  }

  // ----- map encoding -----

  /** The pairs of the generated `cbor_len` of a map-encoded struct. */
  function PairLens(ws: seq<Slot>): nat {
    if ws == [] then 0
    else (if ws[0].value.None? then 0 else UintLen(Arg(ws[0].index)) + CborLen(ws[0].value.value)) + PairLens(ws[1..])
  }

  /** The generated `cbor_len`: its header is sized for all the fields. */
  function MapLen(ws: seq<Slot>): nat {
    UintLen(|ws|) + PairLens(ws)
  }

  lemma {:induction false} PairLensExact(ws: seq<Slot>)
    requires ValidSlots(ws) && CanonicalSlots(ws)
    ensures ValidAll(Entries(ws)) && PairLens(ws) == |EncodeAll(Entries(ws))|
  {
    hide CborLen, Encode, Valid, Canonical;
    if ws != [] {
      assert ValidSlots(ws[1..]) && CanonicalSlots(ws[1..]);
      PairLensExact(ws[1..]);
      EntryValid(ws[0]);
      EncodeAllConcat(Entry(ws[0]), Entries(ws[1..]));
      if ws[0].value.Some? {
        CborLenIsExact(ws[0].value.value);
        KeyLen(ws[0].index);
      }
    }
  }

  lemma {:induction false} KeyLen(i: i64)
    ensures |Encode(KeyItem(i))| == UintLen(Arg(i))
  {
    UintLenIsHead(Arg(i));
  }

  /**
    How far the computed length of a map is off: by the difference between a header for all fields and one for
    those written. So it is never too short, and exact if and only if the two headers are equally long.
   */
  lemma {:induction false} MapLenExactly(ws: seq<Slot>)
    requires ValidSlots(ws) && CanonicalSlots(ws) && |ws| <= MAX_FIELDS
    ensures Valid(MapItem(ws))
    ensures MapLen(ws) - |Encode(MapItem(ws))| == UintLen(|ws|) - UintLen(Present(ws)) >= 0
    ensures MapLen(ws) == |Encode(MapItem(ws))| <==> UintLen(|ws|) == UintLen(Present(ws))
    ensures |ws| < 24 ==> MapLen(ws) == |Encode(MapItem(ws))|
  {
    hide EncodeAll;
    PairLensExact(ws);
    UintLenIsHead(Present(ws));
    MapIsValid(ws);
  }

  /** With 24 fields, a single nil makes it one too large. */
  lemma {:induction false} MapLenTooLarge()
    ensures exists ws: seq<Slot> ::
      ValidSlots(ws) && ByKey(ws) && |ws| == 24 && Valid(MapItem(ws)) && MapLen(ws) == |Encode(MapItem(ws))| + 1
  {
    var ws := seq(24, i requires 0 <= i < 24 => Slot(i, if i == 0 then None else Some(Num(false, Imm, 0))));
    assert forall i :: 0 <= i < |ws| ==> ws[i].index == i;
    AllPresent(ws[1..]);
    assert Present(ws) == 23;
    MapLenExactly(ws);
  }

  lemma {:induction false} AllPresent(ws: seq<Slot>)
    requires forall i :: 0 <= i < |ws| ==> ws[i].value.Some?
    ensures Present(ws) == |ws|
  {
    if ws != [] {
      AllPresent(ws[1..]);
    }
  }
}
