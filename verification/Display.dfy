/**
  Diagnostic notation (section 8 of RFC 8949). The tokenizer prints it from a flat token stream with an explicit
  control stack; the same text is defined here by recursion on the items.
 */
module Display {
  import opened Wire
  import opened Items
  import opened Reads
  import opened Tokens

  /** How single tokens, tag numbers and errors are spelled. */
  datatype Style = Style(token: Token -> string, number: nat -> string, error: Error -> string)

  // ----- the printer by recursion on items -----

  function Diag(st: Style, x: Item): string
    decreases x, 1
  {
    match x
    case StrIndef(text, cs) =>
      if cs == [] then (if text then "\"\"_" else "''_") else "(_ " + JoinChunks(st, text, cs) + ")"
    case Coll(isMap, _, xs) => if isMap then "{" + JoinPairs(st, xs) + "}" else "[" + Join(st, xs) + "]"
    case CollIndef(isMap, xs) => if isMap then "{_ " + JoinPairs(st, xs) + "}" else "[_ " + Join(st, xs) + "]"
    case Tagged(_, tag, y) => st.number(tag) + "(" + Diag(st, y) + ")"
    case _ => st.token(LeafToken(x))
  }

  function Join(st: Style, xs: seq<Item>): string
    decreases xs, 0
  {
    if xs == [] then "" else Diag(st, xs[0]) + Comma(|xs| > 1) + Join(st, xs[1..])
  }

  /** Keys and values alternate. */
  function JoinPairs(st: Style, xs: seq<Item>): string
    decreases xs, 0
  {
    if |xs| < 2 then ""
    else Diag(st, xs[0]) + ": " + Diag(st, xs[1]) + Comma(|xs| > 2) + JoinPairs(st, xs[2..])
  }

  function JoinChunks(st: Style, text: bool, cs: seq<Chunk>): string {
    if cs == [] then "" else st.token(ChunkToken(text, cs[0])) + Comma(|cs| > 1) + JoinChunks(st, text, cs[1..])
  }

  function Comma(more: bool): string {
    if more then ", " else ""
  }

  function DiagAll(st: Style, xs: seq<Item>): string {
    if xs == [] then "" else Diag(st, xs[0]) + DiagAll(st, xs[1..])
  }

  /** The notation of section 8 of RFC 8949 at two elements, whatever they are. */
  lemma {:induction false} Notation(st: Style, x: Item, y: Item, w: Width, tag: nat, c: Chunk, d: Chunk)
    ensures Diag(st, Coll(false, w, [x, y])) == "[" + Diag(st, x) + ", " + Diag(st, y) + "]"
    ensures Diag(st, CollIndef(false, [x, y])) == "[_ " + Diag(st, x) + ", " + Diag(st, y) + "]"
    ensures Diag(st, Coll(true, w, [x, y])) == "{" + Diag(st, x) + ": " + Diag(st, y) + "}"
    ensures Diag(st, CollIndef(true, [x, y])) == "{_ " + Diag(st, x) + ": " + Diag(st, y) + "}"
    ensures Diag(st, Tagged(w, tag, x)) == st.number(tag) + "(" + Diag(st, x) + ")"
    ensures Diag(st, StrIndef(true, [c, d]))
      == "(_ " + st.token(TString(c.data)) + ", " + st.token(TString(d.data)) + ")"
    ensures Diag(st, StrIndef(false, [])) == "''_" && Diag(st, StrIndef(true, [])) == "\"\"_"
  {
    JoinTwo(st, x, y);
    PairTwo(st, x, y);
    ChunkTwo(st, c, d);
    hide Join, JoinPairs, JoinChunks, LeafToken;
  }

  lemma {:induction false} JoinTwo(st: Style, x: Item, y: Item)
    ensures Join(st, [x, y]) == Diag(st, x) + ", " + Diag(st, y)
  {
    hide Diag;
    assert [x, y][1..] == [y] && [y][1..] == [];
    assert Join(st, [y]) == Diag(st, y) + "" + "";
  }

  lemma {:induction false} PairTwo(st: Style, x: Item, y: Item)
    ensures JoinPairs(st, [x, y]) == Diag(st, x) + ": " + Diag(st, y)
  {
    hide Diag;
    assert [x, y][2..] == [];
    assert JoinPairs(st, [x, y]) == Diag(st, x) + ": " + Diag(st, y) + "" + "";
  }

  lemma {:induction false} ChunkTwo(st: Style, c: Chunk, d: Chunk)
    ensures JoinChunks(st, true, [c, d]) == st.token(TString(c.data)) + ", " + st.token(TString(d.data))
  {
    assert [c, d][1..] == [d] && [d][1..] == [];
    assert JoinChunks(st, true, [d]) == st.token(TString(d.data)) + "" + "";
  }

  // ----- the control stack -----

  datatype Elem =
    | N(required: bool)        // next token
    | T                        // tag
    | A(n: Option<nat>)        // array
    | M(n: Option<nat>)        // map
    | B                        // indefinite bytes
    | D                        // indefinite text
    | S(s: string)             // a string
    | X(s: string)             // a string, unless a break follows

  /** A token that may be missing is only ever asked for at the outermost level. */
  predicate Proper(stack: seq<Elem>) {
    forall i :: 0 <= i < |stack| ==> stack[i] == N(false) ==> |stack| == 1
  }

  /** Whether the top of the stack is something other than a request for a token. */
  function Rank(stack: seq<Elem>): (r: nat)
    ensures r <= 1
  {
    if stack == [] || stack[|stack| - 1].N? then 0 else 1
  }

  /** What one round does: text to print, the new stack, how many tokens it took, and whether it gives up. */
  datatype Round = Round(text: string, stack: seq<Elem>, took: nat, stop: bool)

  predicate BreakNext(ls: seq<Lexeme>) {
    ls != [] && ls[0] == Good(TBreak)
  }

  /** A round with `e` taken off the stack and `stack` left. */
  function RoundOn(st: Style, e: Elem, stack: seq<Elem>, ls: seq<Lexeme>): Round {
    match e
    case N(required) =>
      if ls == [] then (if required then Round(" !!! decoding error: unexpected end of input", stack, 0, true)
        else Round("", stack, 0, false))
      else if ls[0].Bad? then Round(" !!! decoding error: " + st.error(ls[0].e), stack, 1, true)
      else TokenRound(st, ls[0].t, stack, BreakNext(ls[1..]))
    case S(s) => Round(s, stack, 0, false)
    case X(s) =>
      if ls == [] || BreakNext(ls) then Round("", stack, 0, false)
      else if ls[0].Good? then Round(s, stack, 0, false)
      else Round(" !!! decoding error: " + st.error(ls[0].e), stack, 0, true)
    case T => Round("", stack + [S(")"), N(true)], 0, false)
    case A(Some(n)) =>
      if n == 0 then Round("]", stack, 0, false)
      else if n == 1 then Round("", stack + [A(Some(0)), N(true)], 0, false)
      else Round("", stack + [A(Some(n - 1)), S(", "), N(true)], 0, false)
    case M(Some(n)) =>
      if n == 0 then Round("}", stack, 0, false)
      else if n == 1 then Round("", stack + [M(Some(0)), N(true), S(": "), N(true)], 0, false)
      else Round("", stack + [M(Some(n - 1)), S(", "), N(true), S(": "), N(true)], 0, false)
    case A(None) => OpenRound(stack, ls, " !!! indefinite array not closed", "]", [A(None), X(", "), N(true)])
    case M(None) => OpenRound(stack, ls, " !!! indefinite map not closed", "}",
      [M(None), X(", "), N(true), S(": "), N(true)])
    case B => OpenRound(stack, ls, " !!! indefinite byte string not closed", ")", [B, X(", "), N(true)])
    case D => OpenRound(stack, ls, " !!! indefinite string not closed", ")", [D, X(", "), N(true)])
  }

  function OpenRound(stack: seq<Elem>, ls: seq<Lexeme>, missing: string, close: string, more: seq<Elem>): Round {
    if ls == [] then Round(missing, stack, 0, true)
    else if BreakNext(ls) then Round(close, stack, 1, false)
    else Round("", stack + more, 0, false)
  }

  function TokenRound(st: Style, t: Token, stack: seq<Elem>, breakNext: bool): Round {
    match t
    case TArray(n) => Round("[", stack + [A(Some(n))], 1, false)
    case TMap(n) => Round("{", stack + [M(Some(n))], 1, false)
    case TBeginArray => Round("[_ ", stack + [A(None)], 1, false)
    case TBeginMap => Round("{_ ", stack + [M(None)], 1, false)
    case TBeginBytes => if breakNext then Round("''_", stack, 2, false) else Round("(_ ", stack + [B], 1, false)
    case TBeginString => if breakNext then Round("\"\"_", stack, 2, false) else Round("(_ ", stack + [D], 1, false)
    case TTag(n) => Round(st.number(n) + "(", stack + [T], 1, false)
    case _ => Round(st.token(t), stack, 1, false)
  }

  predicate NoOptional(stack: seq<Elem>) {
    forall i :: 0 <= i < |stack| ==> stack[i] != N(false)
  }

  /** Replacing the top by requests that are not optional. */
  lemma {:induction false} Pushed(stack: seq<Elem>, e: Elem, more: seq<Elem>)
    requires Proper(stack + [e]) && NoOptional(more)
    ensures Proper(stack + more)
    ensures more != [] && more[|more| - 1].N? ==> Rank(stack + more) == 0
  {
    assert (stack + [e])[|stack|] == e;
    forall i | 0 <= i < |stack| ensures stack[i] != N(false) {
      assert (stack + [e])[i] == stack[i];
    }
    forall i | 0 <= i < |stack + more| ensures (stack + more)[i] != N(false) {
      assert (stack + more)[i] == if i < |stack| then stack[i] else more[i - |stack|];
    }
  }

  lemma {:induction false} Popped(stack: seq<Elem>, e: Elem)
    requires Proper(stack + [e])
    ensures Proper(stack) && Rank(stack + [e]) == (if e.N? then 0 else 1) && (e == N(false) ==> Rank(stack) == 0)
  {
    Pushed(stack, e, []);
    assert stack + [] == stack;
    assert (stack + [e])[|stack|] == e;
  }

  /** Every round takes a token, or asks for one, or shortens the stack. */
  lemma {:induction false} RoundProgress(st: Style, e: Elem, stack: seq<Elem>, ls: seq<Lexeme>)
    requires Proper(stack + [e])
    ensures var r := RoundOn(st, e, stack, ls);
            r.took <= |ls| && Proper(r.stack)
            && (r.stop || r.took > 0 || Rank(r.stack) < Rank(stack + [e])
                || (Rank(r.stack) == Rank(stack + [e]) && |r.stack| <= |stack|))
  {
    hide Proper, Rank, OpenRound, TokenRound;
    Popped(stack, e);
    match e
    case N(_) =>
      if ls != [] && ls[0].Good? {
        TokenProgress(st, ls[0].t, stack, BreakNext(ls[1..]), e);
      }
    case S(_) =>
    case X(_) =>
    case T => Pushed(stack, e, [S(")"), N(true)]);
    case A(None) => OpenProgress(stack, ls, e, " !!! indefinite array not closed", "]", [A(None), X(", "), N(true)]);
    case M(None) => OpenProgress(stack, ls, e, " !!! indefinite map not closed", "}",
      [M(None), X(", "), N(true), S(": "), N(true)]);
    case B => OpenProgress(stack, ls, e, " !!! indefinite byte string not closed", ")", [B, X(", "), N(true)]);
    case D => OpenProgress(stack, ls, e, " !!! indefinite string not closed", ")", [D, X(", "), N(true)]);
    case A(Some(n)) =>
      if n == 1 {
        Pushed(stack, e, [A(Some(0)), N(true)]);
      } else if n > 1 {
        Pushed(stack, e, [A(Some(n - 1)), S(", "), N(true)]);
      }
    case M(Some(n)) =>
      if n == 1 {
        Pushed(stack, e, [M(Some(0)), N(true), S(": "), N(true)]);
      } else if n > 1 {
        Pushed(stack, e, [M(Some(n - 1)), S(", "), N(true), S(": "), N(true)]);
      }
  }

  lemma {:induction false} OpenProgress(
    stack: seq<Elem>, ls: seq<Lexeme>, e: Elem, missing: string, close: string, more: seq<Elem>)
    requires Proper(stack + [e]) && NoOptional(more) && more != [] && more[|more| - 1].N?
    ensures var r := OpenRound(stack, ls, missing, close, more);
            r.took <= |ls| && Proper(r.stack) && (r.stop || r.took > 0 || Rank(r.stack) == 0)
  {
    hide Proper, Rank;
    Popped(stack, e);
    Pushed(stack, e, more);
  }

  lemma {:induction false} TokenProgress(st: Style, t: Token, stack: seq<Elem>, breakNext: bool, e: Elem)
    requires Proper(stack + [e])
    ensures var r := TokenRound(st, t, stack, breakNext);
            Proper(r.stack) && 1 <= r.took && (r.took == 1 || (r.took == 2 && breakNext)) && !r.stop
  {
    hide Proper, Rank;
    Popped(stack, e);
    match t
    case TArray(n) => Pushed(stack, e, [A(Some(n))]);
    case TMap(n) => Pushed(stack, e, [M(Some(n))]);
    case TBeginArray => Pushed(stack, e, [A(None)]);
    case TBeginMap => Pushed(stack, e, [M(None)]);
    case TBeginBytes => Pushed(stack, e, [B]);
    case TBeginString => Pushed(stack, e, [D]);
    case TTag(_) => Pushed(stack, e, [T]);
    case _ =>
  }

  /** What is printed until the stack is empty, the tokens left then, and whether printing gave up. */
  datatype Shown = Shown(text: string, rest: seq<Lexeme>, stop: bool)

  function Before(text: string, s: Shown): Shown {
    s.(text := text + s.text)
  }

  /** The inner loop, from any stack. */
  function Drain(st: Style, stack: seq<Elem>, ls: seq<Lexeme>): (s: Shown)
    requires Proper(stack)
    ensures |s.rest| <= |ls|
    decreases |ls|, Rank(stack), |stack|
  {
    if stack == [] then Shown("", ls, false)
    else
      var k := |stack| - 1;
      assert stack[..k] + [stack[k]] == stack;
      RoundProgress(st, stack[k], stack[..k], ls);
      var r := RoundOn(st, stack[k], stack[..k], ls);
      if r.stop then Shown(r.text, ls[r.took..], true) else Before(r.text, Drain(st, r.stack, ls[r.took..]))
  }

  /** The outer loop: items one after the other while there are tokens. */
  function Displayed(st: Style, ls: seq<Lexeme>): string
    decreases |ls|
  {
    if ls == [] then ""
    else
      TakesOne(st, ls);
      var s := Drain(st, [N(false)], ls);
      s.text + if s.stop then "" else Displayed(st, s.rest)
  }

  lemma {:induction false} TakesOne(st: Style, ls: seq<Lexeme>)
    requires ls != []
    ensures |Drain(st, [N(false)], ls).rest| < |ls|
  {
    assert [N(false)][..0] == [];
    RoundProgress(st, N(false), [], ls);
  }

  /** The inner loop of `Display`, popping the control stack until it is empty. */
  method DrainStack(st: Style, ls: seq<Lexeme>, from: nat) returns (text: string, i: nat, stop: bool)
    requires from <= |ls|
    ensures from <= i <= |ls| && Shown(text, ls[i..], stop) == Drain(st, [N(false)], ls[from..])
    ensures forall x, rest | Valid(x) && ls[from..] == Flat(x) + rest ::
              text == Diag(st, x) && ls[i..] == rest && !stop
  {
    hide RoundOn, Rank, Flat, Diag, Valid;
    OneItem(st, ls[from..]);
    var stack := [N(false)];
    assert Proper(stack);
    hide Proper;
    text, i, stop := "", from, false;
    ghost var whole := Drain(st, stack, ls[from..]);
    assert "" + whole.text == whole.text;
    while stack != []
      invariant from <= i <= |ls| && Proper(stack) && !stop
      invariant whole == Before(text, Drain(st, stack, ls[i..]))
      decreases |ls| - i, Rank(stack), |stack|
    {
      var k := |stack| - 1;
      assert stack[..k] + [stack[k]] == stack;
      RoundProgress(st, stack[k], stack[..k], ls[i..]);
      var r := RoundOn(st, stack[k], stack[..k], ls[i..]);
      assert ls[i..][r.took..] == ls[i + r.took..];
      if r.stop {
        return text + r.text, i + r.took, true;
      }
      ghost var tail := Drain(st, r.stack, ls[i + r.took..]).text;
      assert text + (r.text + tail) == (text + r.text) + tail;
      text, stack, i := text + r.text, r.stack, i + r.took;
    }
    assert text + "" == text;
  }

  lemma {:induction false} OneItem(st: Style, ls: seq<Lexeme>)
    ensures forall x, rest | Valid(x) && ls == Flat(x) + rest ::
              Drain(st, [N(false)], ls) == Shown(Diag(st, x), rest, false)
  {
    hide Drain, Diag, Flat, Valid;
    forall x, rest | Valid(x) && ls == Flat(x) + rest
      ensures Drain(st, [N(false)], ls) == Shown(Diag(st, x), rest, false)
    {
      ShowsItem(st, [], false, x, rest);
      assert [] + [N(false)] == [N(false)];
      NothingLeft(st, rest);
      assert Diag(st, x) + "" == Diag(st, x);
    }
  }

  /** `Display`: the outer loop over a peekable iterator. */
  method Show(st: Style, ls: seq<Lexeme>) returns (out: string)
    ensures out == Displayed(st, ls)
    ensures forall xs | ValidAll(xs) && ls == FlatAll(xs) :: out == DiagAll(st, xs)
    ensures forall xs, e | ValidAll(xs) && ls == FlatAll(xs) + [Bad(e)] ::
              out == DiagAll(st, xs) + " !!! decoding error: " + st.error(e)
  {
    hide Drain, FlatAll, ValidAll, DiagAll;
    forall xs, e | ValidAll(xs) && ls == FlatAll(xs) + [Bad(e)]
      ensures Displayed(st, ls) == DiagAll(st, xs) + " !!! decoding error: " + st.error(e)
    {
      DisplaysError(st, xs, e);
    }
    forall xs | ValidAll(xs) && ls == FlatAll(xs) ensures Displayed(st, ls) == DiagAll(st, xs) {
      DisplaysItems(st, xs);
    }
    out := "";
    var i := 0;
    assert ls[0..] == ls && "" + Displayed(st, ls) == Displayed(st, ls);
    while i < |ls|
      invariant i <= |ls| && out + Displayed(st, ls[i..]) == Displayed(st, ls)
      decreases |ls| - i
    {
      TakesOne(st, ls[i..]);
      ghost var before := out;
      var text, next, stop := DrainStack(st, ls, i);
      ghost var tail := if stop then "" else Displayed(st, ls[next..]);
      assert Displayed(st, ls[i..]) == text + tail;
      assert out + (text + tail) == (out + text) + tail;
      out := out + text;
      if stop {
        assert out + "" == out;
        return;
      }
      i := next;
    }
    assert ls[|ls|..] == [] && out + "" == out;
  }

  // ----- the two agree -----

  lemma {:induction false} ProperPush(stack: seq<Elem>, e: Elem)
    requires NoOptional(stack) && (e != N(false) || stack == [])
    ensures Proper(stack) && Proper(stack + [e]) && (e != N(false) ==> NoOptional(stack + [e]))
  {
  }

  /** One round on a stack with `e` on top. */
  lemma {:induction false} Step(st: Style, stack: seq<Elem>, e: Elem, ls: seq<Lexeme>)
    requires Proper(stack + [e]) && !RoundOn(st, e, stack, ls).stop
    ensures var r := RoundOn(st, e, stack, ls);
            r.took <= |ls| && Proper(r.stack)
              && Drain(st, stack + [e], ls) == Before(r.text, Drain(st, r.stack, ls[r.took..]))
  {
    RoundProgress(st, e, stack, ls);
    assert (stack + [e])[..|stack|] == stack;
  }

  lemma {:induction false} BeforeTwice(a: string, b: string, s: Shown)
    ensures Before(a, Before(b, s)) == Before(a + b, s) && Before("", s) == s
  {
    assert a + (b + s.text) == (a + b) + s.text && "" + s.text == s.text;
  }

  lemma {:induction false} FirstToken(x: Item)
    ensures Flat(x) != [] && Flat(x)[0].Good? && Flat(x)[0].t != TBreak
  {
  }

  /** A token request prints exactly one item and takes exactly its tokens. */
  lemma {:induction false} ShowsItem(st: Style, stack: seq<Elem>, required: bool, x: Item, rest: seq<Lexeme>)
    requires Valid(x) && NoOptional(stack) && (required || stack == [])
    ensures Proper(stack + [N(required)]) && Proper(stack)
    ensures Drain(st, stack + [N(required)], Flat(x) + rest) == Before(Diag(st, x), Drain(st, stack, rest))
    decreases x, 3
  {
    hide Drain, Valid;
    ProperPush(stack, N(required));
    var ls := Flat(x) + rest;
    FirstToken(x);
    match x
    case Num(_, _, _) => ShowsLeaf(st, stack, required, x, rest);
    case Str(_, _) => ShowsLeaf(st, stack, required, x, rest);
    case Prim(_, _) => ShowsLeaf(st, stack, required, x, rest);
    case StrIndef(text, cs) => ShowsStrIndef(st, stack, required, text, cs, rest);
    case Coll(_, _, _) => ShowsColl(st, stack, required, x, rest);
    case CollIndef(_, _) => ShowsColl(st, stack, required, x, rest);
    case Tagged(_, tag, y) => ShowsTagged(st, stack, required, x, rest);
  }

  lemma {:induction false} ShowsLeaf(st: Style, stack: seq<Elem>, required: bool, x: Item, rest: seq<Lexeme>)
    requires (x.Num? || x.Str? || x.Prim?) && NoOptional(stack) && (required || stack == [])
    ensures Proper(stack + [N(required)]) && Proper(stack)
    ensures Drain(st, stack + [N(required)], Flat(x) + rest) == Before(Diag(st, x), Drain(st, stack, rest))
  {
    hide Drain, Proper;
    ProperPush(stack, N(required));
    Step(st, stack, N(required), Flat(x) + rest);
    assert (Flat(x) + rest)[1..] == rest;
  }

  lemma {:induction false} ShowsString(st: Style, stack: seq<Elem>, text: string, ls: seq<Lexeme>)
    requires NoOptional(stack)
    ensures Proper(stack) && Proper(stack + [S(text)])
    ensures Drain(st, stack + [S(text)], ls) == Before(text, Drain(st, stack, ls))
  {
    hide Drain, Proper;
    ProperPush(stack, S(text));
    Step(st, stack, S(text), ls);
    assert ls[0..] == ls;
  }

  /** Where the elements of an indefinite container end: at its break, or at the end of the tokens. */
  predicate EndsElements(ls: seq<Lexeme>) {
    ls == [] || BreakNext(ls)
  }

  /** Between the elements of an indefinite container, a separator is printed only if another one follows. */
  lemma {:induction false} ShowsSeparator(st: Style, stack: seq<Elem>, ls: seq<Lexeme>)
    requires NoOptional(stack) && (ls == [] || ls[0].Good?)
    ensures Proper(stack) && Proper(stack + [X(", ")])
    ensures Drain(st, stack + [X(", ")], ls) == Before(Comma(!EndsElements(ls)), Drain(st, stack, ls))
  {
    hide Drain, Proper;
    ProperPush(stack, X(", "));
    Step(st, stack, X(", "), ls);
    assert ls[0..] == ls;
  }

  /** The break closes an indefinite container. */
  lemma {:induction false} ShowsClose(st: Style, stack: seq<Elem>, e: Elem, rest: seq<Lexeme>)
    requires NoOptional(stack) && e in {A(None), M(None), B, D}
    ensures Proper(stack) && Proper(stack + [e])
    ensures Drain(st, stack + [e], [Good(TBreak)] + rest) == Before(CloseText(e), Drain(st, stack, rest))
  {
    hide Drain, Proper;
    ProperPush(stack, e);
    var ls := [Good(TBreak)] + rest;
    assert ls[1..] == rest;
    Step(st, stack, e, ls);
  }

  function CloseText(e: Elem): string {
    match e
    case A(_) => "]"
    case M(_) => "}"
    case _ => ")"
  }

  /** Without it, the missing end is reported and printing stops. */
  lemma {:induction false} ShowsUnclosed(st: Style, stack: seq<Elem>, e: Elem)
    requires NoOptional(stack) && e in {A(None), M(None), B, D}
    ensures Proper(stack + [e]) && Drain(st, stack + [e], []) == Shown(
      if e.A? then " !!! indefinite array not closed" else if e.M? then " !!! indefinite map not closed"
      else if e.B? then " !!! indefinite byte string not closed" else " !!! indefinite string not closed", [], true)
  {
    ProperPush(stack, e);
    assert (stack + [e])[..|stack|] == stack;
  }

  /** What is printed for the head of a tag or a container, and the element that prints the rest. */
  function OpenText(st: Style, x: Item): string
    requires x.Coll? || x.CollIndef? || x.Tagged?
  {
    match x
    case Coll(isMap, _, _) => if isMap then "{" else "["
    case CollIndef(isMap, _) => if isMap then "{_ " else "[_ "
    case Tagged(_, tag, _) => st.number(tag) + "("
  }

  function OpenElem(x: Item): (e: Elem)
    requires x.Coll? || x.CollIndef? || x.Tagged?
    ensures e != N(false)
  {
    match x
    case Coll(isMap, _, xs) => if isMap then M(Some(|xs| / 2)) else A(Some(|xs|))
    case CollIndef(isMap, _) => if isMap then M(None) else A(None)
    case Tagged(_, _, _) => T
  }

  lemma {:induction false} ShowsHead(st: Style, stack: seq<Elem>, required: bool, x: Item, inner: seq<Lexeme>)
    requires (x.Coll? || x.CollIndef? || x.Tagged?) && NoOptional(stack) && (required || stack == [])
    ensures Proper(stack + [N(required)]) && Proper(stack + [OpenElem(x)])
    ensures Drain(st, stack + [N(required)], [Good(OpenToken(x))] + inner)
         == Before(OpenText(st, x), Drain(st, stack + [OpenElem(x)], inner))
  {
    hide Drain, Proper;
    ProperPush(stack, N(required));
    ProperPush(stack, OpenElem(x));
    var ls := [Good(OpenToken(x))] + inner;
    assert ls[1..] == inner;
    Step(st, stack, N(required), ls);
  }

  lemma {:induction false} ShowsTagged(st: Style, stack: seq<Elem>, required: bool, x: Item, rest: seq<Lexeme>)
    requires x.Tagged? && Valid(x) && NoOptional(stack) && (required || stack == [])
    ensures Proper(stack + [N(required)]) && Proper(stack)
    ensures Drain(st, stack + [N(required)], Flat(x) + rest) == Before(Diag(st, x), Drain(st, stack, rest))
    decreases x, 2
  {
    hide Drain, Proper;
    var y := x.content;
    var inner := Flat(y) + rest;
    assert Flat(x) + rest == [Good(OpenToken(x))] + inner;
    ShowsHead(st, stack, required, x, inner);
    ShowsTag(st, stack, inner);
    ProperPush(stack, S(")"));
    ShowsItem(st, stack + [S(")")], true, y, rest);
    ShowsString(st, stack, ")", rest);
    var d, s := Diag(st, y), Drain(st, stack, rest);
    BeforeTwice(d, ")", s);
    BeforeTwice(OpenText(st, x), d + ")", s);
    assert OpenText(st, x) + (d + ")") == Diag(st, x);
  }

  /** A tag asks for its content and the closing parenthesis. */
  lemma {:induction false} ShowsTag(st: Style, stack: seq<Elem>, ls: seq<Lexeme>)
    requires NoOptional(stack)
    ensures Proper(stack + [T]) && Proper(stack + [S(")")] + [N(true)])
    ensures Drain(st, stack + [T], ls) == Drain(st, stack + [S(")")] + [N(true)], ls)
  {
    hide Drain, Proper;
    ProperPush(stack, T);
    ProperPush(stack, S(")"));
    ProperPush(stack + [S(")")], N(true));
    Step(st, stack, T, ls);
    assert ls[0..] == ls;
    assert stack + [S(")"), N(true)] == stack + [S(")")] + [N(true)];
    BeforeTwice("", "", Drain(st, stack + [S(")")] + [N(true)], ls));
  }

  lemma {:induction false} ShowsColl(st: Style, stack: seq<Elem>, required: bool, x: Item, rest: seq<Lexeme>)
    requires (x.Coll? || x.CollIndef?) && Valid(x) && NoOptional(stack) && (required || stack == [])
    ensures Proper(stack + [N(required)]) && Proper(stack)
    ensures Drain(st, stack + [N(required)], Flat(x) + rest) == Before(Diag(st, x), Drain(st, stack, rest))
    decreases x, 2
  {
    hide Drain, FlatAll, Join, JoinPairs, Proper, NoOptional;
    var open, body := OpenText(st, x), if x.isMap then JoinPairs(st, x.items) + "}" else Join(st, x.items) + "]";
    ProperPush(stack, N(required));
    var s := Drain(st, stack, rest);
    var inner := FlatAll(x.items) + if x.Coll? then rest else [Good(TBreak)] + rest;
    assert Flat(x) + rest == [Good(OpenToken(x))] + inner;
    ShowsHead(st, stack, required, x, inner);
    if x.Coll? && x.isMap {
      ShowsPairs(st, stack, x.items, rest);
    } else if x.Coll? {
      ShowsElements(st, stack, x.items, rest);
    } else if x.isMap {
      ShowsPairsIndef(st, stack, x.items, [Good(TBreak)] + rest);
      ShowsClose(st, stack, M(None), rest);
      BeforeTwice(JoinPairs(st, x.items), "}", s);
    } else {
      ShowsElementsIndef(st, stack, x.items, [Good(TBreak)] + rest);
      ShowsClose(st, stack, A(None), rest);
      BeforeTwice(Join(st, x.items), "]", s);
    }
    BeforeTwice(open, body, s);
    assert open + body == Diag(st, x);
  }

  lemma {:induction false} ShowsElements(st: Style, stack: seq<Elem>, xs: seq<Item>, rest: seq<Lexeme>)
    requires ValidAll(xs) && NoOptional(stack)
    ensures Proper(stack) && Proper(stack + [A(Some(|xs|))])
    ensures Drain(st, stack + [A(Some(|xs|))], FlatAll(xs) + rest) == Before(Join(st, xs) + "]", Drain(st, stack, rest))
    decreases xs, 0
  {
    hide Drain, Proper, Diag, Flat;
    var n, ls := |xs|, FlatAll(xs) + rest;
    ProperPush(stack, A(Some(n)));
    Step(st, stack, A(Some(n)), ls);
    assert ls[0..] == ls;
    if n == 0 {
      assert ls == rest && Join(st, xs) + "]" == "]";
    } else {
      var more := stack + [A(Some(n - 1))];
      ProperPush(stack, A(Some(n - 1)));
      var tail := FlatAll(xs[1..]) + rest;
      assert ls == Flat(xs[0]) + tail;
      ShowsElements(st, stack, xs[1..], rest);
      var d, j, s := Diag(st, xs[0]), Join(st, xs[1..]) + "]", Drain(st, stack, rest);
      if n == 1 {
        assert stack + [A(Some(0)), N(true)] == more + [N(true)];
        ShowsItem(st, more, true, xs[0], tail);
      } else {
        ProperPush(more, S(", "));
        assert stack + [A(Some(n - 1)), S(", "), N(true)] == more + [S(", ")] + [N(true)];
        ShowsItem(st, more + [S(", ")], true, xs[0], tail);
        ShowsString(st, more, ", ", tail);
      }
      Glue(d, Comma(n > 1), j, s);
      assert Join(st, xs) + "]" == d + Comma(n > 1) + j;
    }
  }

  /** Texts printed one after the other. */
  lemma {:induction false} Glue(a: string, b: string, c: string, s: Shown)
    ensures Before("", Before(a, Before(b, Before(c, s)))) == Before(a + b + c, s)
    ensures b == "" ==> Before("", Before(a, Before(c, s))) == Before(a + b + c, s)
    ensures Before("", Before(c, s)) == Before(c, s)
  {
    BeforeTwice(b, c, s);
    BeforeTwice(a, b + c, s);
    BeforeTwice("", "", Before(a, Before(b, Before(c, s))));
    BeforeTwice("", "", Before(a, Before(c, s)));
    BeforeTwice("", "", Before(c, s));
    BeforeTwice(a, c, s);
    assert a + (b + c) == a + b + c;
    assert a + "" + c == a + c;
  }

  lemma {:induction false} ShowsElementsIndef(st: Style, stack: seq<Elem>, xs: seq<Item>, es: seq<Lexeme>)
    requires ValidAll(xs) && NoOptional(stack) && EndsElements(es)
    ensures Proper(stack + [A(None)])
    ensures Drain(st, stack + [A(None)], FlatAll(xs) + es) == Before(Join(st, xs), Drain(st, stack + [A(None)], es))
    decreases xs, 0
  {
    hide Drain, Proper, Diag, Flat;
    var ls := FlatAll(xs) + es;
    ProperPush(stack, A(None));
    var more := stack + [A(None)];
    if xs == [] {
      assert ls == es;
      BeforeTwice("", "", Drain(st, more, es));
    } else {
      FirstToken(xs[0]);
      Step(st, stack, A(None), ls);
      assert ls[0..] == ls;
      var tail := FlatAll(xs[1..]) + es;
      assert ls == Flat(xs[0]) + tail;
      ProperPush(more, X(", "));
      assert stack + [A(None), X(", "), N(true)] == more + [X(", ")] + [N(true)];
      ShowsItem(st, more + [X(", ")], true, xs[0], tail);
      Follows(xs[1..], es);
      ShowsSeparator(st, more, tail);
      ShowsElementsIndef(st, stack, xs[1..], es);
      Glue(Diag(st, xs[0]), Comma(|xs| > 1), Join(st, xs[1..]), Drain(st, more, es));
    }
  }

  /** Behind an element comes the first token of the next one, or the end. */
  lemma {:induction false} Follows(xs: seq<Item>, es: seq<Lexeme>)
    requires EndsElements(es)
    ensures var ls := FlatAll(xs) + es; (ls == [] || ls[0].Good?) && (EndsElements(ls) <==> xs == [])
  {
    if xs == [] {
      assert FlatAll(xs) + es == es;
    } else {
      FirstToken(xs[0]);
    }
  }

  lemma {:induction false} ShowsPairs(st: Style, stack: seq<Elem>, xs: seq<Item>, rest: seq<Lexeme>)
    requires ValidAll(xs) && |xs| % 2 == 0 && NoOptional(stack)
    ensures Proper(stack) && Proper(stack + [M(Some(|xs| / 2))])
    ensures Drain(st, stack + [M(Some(|xs| / 2))], FlatAll(xs) + rest)
      == Before(JoinPairs(st, xs) + "}", Drain(st, stack, rest))
    decreases xs, 1
  {
    hide Drain, Proper, Diag, Flat, FlatAll, JoinPairs, ValidAll;
    var n, ls := |xs| / 2, FlatAll(xs) + rest;
    Halves(|xs|);
    ProperPush(stack, M(Some(n)));
    Step(st, stack, M(Some(n)), ls);
    assert ls[0..] == ls;
    if n == 0 {
      NoPairs(st, xs, rest);
    } else {
      var more, tail := stack + [M(Some(n - 1))], FlatAll(xs[2..]) + rest;
      ProperPush(stack, M(Some(n - 1)));
      FlatTwo(xs, rest);
      TwoValid(xs);
      ShowsPairs(st, stack, xs[2..], rest);
      var s := Drain(st, stack, rest);
      if n == 1 {
        PushEntry(stack, M(Some(0)), S(", "));
        ShowsEntry(st, more, xs, tail);
      } else {
        ProperPush(more, S(", "));
        PushEntry(stack, M(Some(n - 1)), S(", "));
        ShowsEntry(st, more + [S(", ")], xs, tail);
        ShowsString(st, more, ", ", tail);
      }
      var d, j := Diag(st, xs[0]) + ": " + Diag(st, xs[1]), JoinPairs(st, xs[2..]) + "}";
      Glue(d, Comma(n > 1), j, s);
      NextPair(st, xs);
    }
  }

  lemma {:induction false} Halves(n: nat)
    requires n % 2 == 0
    ensures (n / 2 == 0 <==> n == 0) && (n / 2 > 1 <==> n > 2)
      && (n >= 2 ==> (n - 2) / 2 == n / 2 - 1 && (n - 2) % 2 == 0)
  {
  }

  lemma {:induction false} NoPairs(st: Style, xs: seq<Item>, rest: seq<Lexeme>)
    requires xs == []
    ensures FlatAll(xs) + rest == rest && JoinPairs(st, xs) == "" && JoinPairs(st, xs) + "}" == "}"
  {
  }

  lemma {:induction false} FlatTwo(xs: seq<Item>, rest: seq<Lexeme>)
    requires |xs| >= 2
    ensures FlatAll(xs) + rest == Flat(xs[0]) + (Flat(xs[1]) + (FlatAll(xs[2..]) + rest))
  {
    hide Flat;
    assert xs[1..][1..] == xs[2..] && xs[1..][0] == xs[1];
    Regroup(Flat(xs[1]), FlatAll(xs[2..]), rest);
    Regroup(Flat(xs[0]), FlatAll(xs[1..]), rest);
  }

  lemma {:induction false} NextPair(st: Style, xs: seq<Item>)
    requires |xs| >= 2
    ensures JoinPairs(st, xs) + "}"
      == Diag(st, xs[0]) + ": " + Diag(st, xs[1]) + Comma(|xs| > 2) + (JoinPairs(st, xs[2..]) + "}")
  {
    hide Diag;
  }

  lemma {:induction false} PushEntry(stack: seq<Elem>, a: Elem, b: Elem)
    ensures stack + [a, N(true), S(": "), N(true)] == stack + [a] + [N(true)] + [S(": ")] + [N(true)]
    ensures stack + [a, b, N(true), S(": "), N(true)] == stack + [a] + [b] + [N(true)] + [S(": ")] + [N(true)]
  {
  }

  /** A key, the colon and a value: the first two of `xs`. */
  lemma {:induction false} ShowsEntry(st: Style, stack: seq<Elem>, xs: seq<Item>, rest: seq<Lexeme>)
    requires |xs| >= 2 && Valid(xs[0]) && Valid(xs[1]) && NoOptional(stack)
    ensures Proper(stack) && Proper(stack + [N(true)] + [S(": ")] + [N(true)])
    ensures Drain(st, stack + [N(true)] + [S(": ")] + [N(true)], Flat(xs[0]) + (Flat(xs[1]) + rest))
         == Before(Diag(st, xs[0]) + ": " + Diag(st, xs[1]), Drain(st, stack, rest))
    decreases xs, 0
  {
    hide Drain, Proper, Diag, Flat, Valid;
    var k, v := xs[0], xs[1];
    ProperPush(stack, N(true));
    ProperPush(stack + [N(true)], S(": "));
    ShowsItem(st, stack + [N(true)] + [S(": ")], true, k, Flat(v) + rest);
    ShowsString(st, stack + [N(true)], ": ", Flat(v) + rest);
    ShowsItem(st, stack, true, v, rest);
    var s := Drain(st, stack, rest);
    BeforeTwice(": ", Diag(st, v), s);
    BeforeTwice(Diag(st, k), ": " + Diag(st, v), s);
    assert Diag(st, k) + (": " + Diag(st, v)) == Diag(st, k) + ": " + Diag(st, v);
  }

  lemma {:induction false} ShowsPairsIndef(st: Style, stack: seq<Elem>, xs: seq<Item>, es: seq<Lexeme>)
    requires ValidAll(xs) && |xs| % 2 == 0 && NoOptional(stack) && EndsElements(es)
    ensures Proper(stack + [M(None)])
    ensures Drain(st, stack + [M(None)], FlatAll(xs) + es)
      == Before(JoinPairs(st, xs), Drain(st, stack + [M(None)], es))
    decreases xs, 1
  {
    hide Drain, Proper, Diag, Flat, FlatAll, JoinPairs, ValidAll;
    var ls := FlatAll(xs) + es;
    Halves(|xs|);
    ProperPush(stack, M(None));
    var more := stack + [M(None)];
    if xs == [] {
      NoPairs(st, xs, es);
      BeforeTwice("", "", Drain(st, more, es));
    } else {
      Follows(xs, es);
      Step(st, stack, M(None), ls);
      assert ls[0..] == ls;
      var tail := FlatAll(xs[2..]) + es;
      FlatTwo(xs, es);
      ProperPush(more, X(", "));
      PushEntry(stack, M(None), X(", "));
      TwoValid(xs);
      ShowsEntry(st, more + [X(", ")], xs, tail);
      Follows(xs[2..], es);
      ShowsSeparator(st, more, tail);
      ShowsPairsIndef(st, stack, xs[2..], es);
      var d := Diag(st, xs[0]) + ": " + Diag(st, xs[1]);
      Glue(d, Comma(|xs| > 2), JoinPairs(st, xs[2..]), Drain(st, more, es));
      PairJoins(st, xs);
    }
  }

  lemma {:induction false} PairJoins(st: Style, xs: seq<Item>)
    requires |xs| >= 2
    ensures JoinPairs(st, xs) == Diag(st, xs[0]) + ": " + Diag(st, xs[1]) + Comma(|xs| > 2) + JoinPairs(st, xs[2..])
  {
    hide Diag;
  }

  lemma {:induction false} TwoValid(xs: seq<Item>)
    requires |xs| >= 2 && ValidAll(xs)
    ensures Valid(xs[0]) && Valid(xs[1]) && ValidAll(xs[2..])
  {
    assert xs[1..][1..] == xs[2..] && xs[1..][0] == xs[1];
  }

  lemma {:induction false} ShowsStrIndef(
    st: Style, stack: seq<Elem>, required: bool, text: bool, cs: seq<Chunk>, rest: seq<Lexeme>)
    requires NoOptional(stack) && (required || stack == [])
    ensures Proper(stack + [N(required)]) && Proper(stack)
    ensures Drain(st, stack + [N(required)], Flat(StrIndef(text, cs)) + rest)
         == Before(Diag(st, StrIndef(text, cs)), Drain(st, stack, rest))
  {
    hide Drain, Proper, ChunkTokens, JoinChunks, RoundOn;
    ProperPush(stack, N(required));
    var x, e := StrIndef(text, cs), if text then D else B;
    var inner := ChunkTokens(text, cs) + ([Good(TBreak)] + rest);
    assert Flat(x) + rest == [Good(OpenToken(x))] + inner;
    ChunksFollow(text, cs, [Good(TBreak)] + rest);
    if cs == [] {
      NoChunks(text);
      assert inner == [Good(TBreak)] + rest;
      ShowsEmptyString(st, stack, required, text, rest);
    } else {
      ShowsStringHead(st, stack, required, text, inner);
      ShowsChunks(st, stack, text, cs, [Good(TBreak)] + rest);
      ShowsClose(st, stack, e, rest);
      BeforeTwice(JoinChunks(st, text, cs), ")", Drain(st, stack, rest));
      BeforeTwice("(_ ", JoinChunks(st, text, cs) + ")", Drain(st, stack, rest));
      assert "(_ " + (JoinChunks(st, text, cs) + ")") == Diag(st, x);
    }
  }

  lemma {:induction false} ShowsStringHead(
    st: Style, stack: seq<Elem>, required: bool, text: bool, inner: seq<Lexeme>)
    requires NoOptional(stack) && (required || stack == []) && !BreakNext(inner)
    ensures var (open, e) := (if text then TBeginString else TBeginBytes, if text then D else B);
            Proper(stack + [N(required)]) && Proper(stack + [e])
            && Drain(st, stack + [N(required)], [Good(open)] + inner) == Before("(_ ", Drain(st, stack + [e], inner))
  {
    hide Drain, Proper;
    var open, e := if text then TBeginString else TBeginBytes, if text then D else B;
    ProperPush(stack, N(required));
    ProperPush(stack, e);
    assert ([Good(open)] + inner)[1..] == inner;
    Step(st, stack, N(required), [Good(open)] + inner);
  }

  lemma {:induction false} ShowsEmptyString(
    st: Style, stack: seq<Elem>, required: bool, text: bool, rest: seq<Lexeme>)
    requires NoOptional(stack) && (required || stack == [])
    ensures Proper(stack + [N(required)]) && Proper(stack)
    ensures Drain(st, stack + [N(required)],
      [Good(if text then TBeginString else TBeginBytes)] + ([Good(TBreak)] + rest))
         == Before(if text then "\"\"_" else "''_", Drain(st, stack, rest))
  {
    hide Drain, Proper;
    ProperPush(stack, N(required));
    var ls := [Good(if text then TBeginString else TBeginBytes)] + ([Good(TBreak)] + rest);
    assert ls[1..] == [Good(TBreak)] + rest && ls[2..] == rest;
    Step(st, stack, N(required), ls);
  }

  lemma {:induction false} NoChunks(text: bool)
    ensures ChunkTokens(text, []) == []
  {
  }

  lemma {:induction false} ChunksFollow(text: bool, cs: seq<Chunk>, es: seq<Lexeme>)
    requires EndsElements(es)
    ensures var ls := ChunkTokens(text, cs) + es; (ls == [] || ls[0].Good?) && (EndsElements(ls) <==> cs == [])
  {
  }

  lemma {:induction false} ShowsChunks(st: Style, stack: seq<Elem>, text: bool, cs: seq<Chunk>, es: seq<Lexeme>)
    requires NoOptional(stack) && EndsElements(es)
    ensures var e := if text then D else B;
            Proper(stack + [e])
            && Drain(st, stack + [e], ChunkTokens(text, cs) + es)
            == Before(JoinChunks(st, text, cs), Drain(st, stack + [e], es))
    decreases cs
  {
    hide Drain, Proper;
    var e, ls := if text then D else B, ChunkTokens(text, cs) + es;
    ProperPush(stack, e);
    var more := stack + [e];
    if cs == [] {
      assert ls == es;
      BeforeTwice("", "", Drain(st, more, es));
    } else {
      ChunksFollow(text, cs, es);
      Step(st, stack, e, ls);
      assert ls[0..] == ls;
      var tail := ChunkTokens(text, cs[1..]) + es;
      var leaf := Str(text, cs[0]);
      assert Flat(leaf) == [Good(ChunkToken(text, cs[0]))];
      assert ls == Flat(leaf) + tail;
      ProperPush(more, X(", "));
      assert stack + [e, X(", "), N(true)] == more + [X(", ")] + [N(true)];
      ShowsLeaf(st, more + [X(", ")], true, leaf, tail);
      ChunksFollow(text, cs[1..], es);
      ShowsSeparator(st, more, tail);
      ShowsChunks(st, stack, text, cs[1..], es);
      var d := st.token(ChunkToken(text, cs[0]));
      Glue(d, Comma(|cs| > 1), JoinChunks(st, text, cs[1..]), Drain(st, more, es));
    }
  }

  /** Items are printed one after the other, and then whatever the remaining tokens come to. */
  lemma {:induction false} DisplaysBefore(st: Style, xs: seq<Item>, rest: seq<Lexeme>)
    requires ValidAll(xs)
    ensures Displayed(st, FlatAll(xs) + rest) == DiagAll(st, xs) + Displayed(st, rest)
  {
    if xs == [] {
      assert FlatAll(xs) + rest == rest && "" + Displayed(st, rest) == Displayed(st, rest);
    } else {
      hide Drain, Diag, Flat;
      FirstToken(xs[0]);
      var tail := FlatAll(xs[1..]) + rest;
      Regroup(Flat(xs[0]), FlatAll(xs[1..]), rest);
      ShowsItem(st, [], false, xs[0], tail);
      assert [] + [N(false)] == [N(false)];
      NothingLeft(st, tail);
      assert Diag(st, xs[0]) + "" == Diag(st, xs[0]);
      DisplaysBefore(st, xs[1..], rest);
      Regroup(Diag(st, xs[0]), DiagAll(st, xs[1..]), Displayed(st, rest));
    }
  }

  /** The stack machine prints every sequence of items as the recursive printer does. */
  lemma {:induction false} DisplaysItems(st: Style, xs: seq<Item>)
    requires ValidAll(xs)
    ensures Displayed(st, FlatAll(xs)) == DiagAll(st, xs)
  {
    DisplaysBefore(st, xs, []);
    assert FlatAll(xs) + [] == FlatAll(xs);
    assert DiagAll(st, xs) + "" == DiagAll(st, xs);
  }

  /** Items followed by an error: the error is printed behind them, and nothing else. */
  lemma {:induction false} DisplaysError(st: Style, xs: seq<Item>, e: Error)
    requires ValidAll(xs)
    ensures Displayed(st, FlatAll(xs) + [Bad(e)]) == DiagAll(st, xs) + " !!! decoding error: " + st.error(e)
  {
    hide FlatAll, DiagAll;
    DisplaysBefore(st, xs, [Bad(e)]);
    assert [N(false)][..0] == [];
    assert Drain(st, [N(false)], [Bad(e)]) == Shown(" !!! decoding error: " + st.error(e), [], true);
    var text := " !!! decoding error: " + st.error(e);
    assert text + "" == text;
    Regroup(DiagAll(st, xs), " !!! decoding error: ", st.error(e));
  }

  lemma {:induction false} NothingLeft(st: Style, ls: seq<Lexeme>)
    ensures Drain(st, [], ls) == Shown("", ls, false)
  {
  }

  /** An indefinite array without its break is printed as far as it goes, with a note that it is not closed. */
  lemma {:induction false} DisplaysUnclosedArray(st: Style, xs: seq<Item>)
    requires ValidAll(xs)
    ensures Displayed(st, [Good(TBeginArray)] + FlatAll(xs))
      == "[_ " + Join(st, xs) + " !!! indefinite array not closed"
  {
    hide Drain, FlatAll, Join;
    assert FlatAll(xs) + [] == FlatAll(xs);
    ShowsHead(st, [], false, CollIndef(false, xs), FlatAll(xs));
    ShowsElementsIndef(st, [], xs, []);
    ShowsUnclosed(st, [], A(None));
    Unclosed(st, TBeginArray, A(None), FlatAll(xs), "[_ ", Join(st, xs), " !!! indefinite array not closed");
  }

  /** And so is an indefinite map. */
  lemma {:induction false} DisplaysUnclosedMap(st: Style, xs: seq<Item>)
    requires ValidAll(xs) && |xs| % 2 == 0
    ensures Displayed(st, [Good(TBeginMap)] + FlatAll(xs))
      == "{_ " + JoinPairs(st, xs) + " !!! indefinite map not closed"
  {
    hide Drain, FlatAll, JoinPairs;
    assert FlatAll(xs) + [] == FlatAll(xs);
    ShowsHead(st, [], false, CollIndef(true, xs), FlatAll(xs));
    ShowsPairsIndef(st, [], xs, []);
    ShowsUnclosed(st, [], M(None));
    Unclosed(st, TBeginMap, M(None), FlatAll(xs), "{_ ", JoinPairs(st, xs), " !!! indefinite map not closed");
  }

  /** Elements that are each followed by another one. */
  function Commas(st: Style, xs: seq<Item>): string {
    if xs == [] then "" else Diag(st, xs[0]) + ", " + Commas(st, xs[1..])
  }

  lemma {:induction false} ShowsMissing(st: Style, stack: seq<Elem>, n: nat, xs: seq<Item>)
    requires ValidAll(xs) && NoOptional(stack) && n > |xs|
    ensures Proper(stack + [A(Some(n))])
    ensures Drain(st, stack + [A(Some(n))], FlatAll(xs))
         == Before(Commas(st, xs), Shown(" !!! decoding error: unexpected end of input", [], true))
    decreases xs
  {
    hide Drain, Proper, Diag, Flat;
    var ls, z := FlatAll(xs), Shown(" !!! decoding error: unexpected end of input", [], true);
    ProperPush(stack, A(Some(n)));
    Step(st, stack, A(Some(n)), ls);
    assert ls[0..] == ls;
    var more := stack + [A(Some(n - 1))];
    ProperPush(stack, A(Some(n - 1)));
    ProperPush(more, S(", "));
    var under := if n == 1 then more else more + [S(", ")];
    assert (if n == 1 then stack + [A(Some(0)), N(true)] else stack + [A(Some(n - 1)), S(", "), N(true)])
      == under + [N(true)];
    if xs == [] {
      NoTokenLeft(st, under);
      BeforeTwice("", "", z);
    } else {
      var tail := FlatAll(xs[1..]);
      ShowsItem(st, under, true, xs[0], tail);
      ShowsString(st, more, ", ", tail);
      ShowsMissing(st, stack, n - 1, xs[1..]);
      Glue(Diag(st, xs[0]), ", ", Commas(st, xs[1..]), z);
    }
  }

  lemma {:induction false} NoTokenLeft(st: Style, stack: seq<Elem>)
    requires NoOptional(stack)
    ensures Proper(stack + [N(true)])
    ensures Drain(st, stack + [N(true)], []) == Shown(" !!! decoding error: unexpected end of input", [], true)
  {
    ProperPush(stack, N(true));
    assert (stack + [N(true)])[..|stack|] == stack;
  }

  /** An array with fewer elements than it announces is printed as far as it goes, with an error for the missing one. */
  lemma {:induction false} DisplaysMissingElement(st: Style, n: nat, xs: seq<Item>)
    requires ValidAll(xs) && n > |xs|
    ensures Displayed(st, [Good(TArray(n))] + FlatAll(xs))
         == "[" + Commas(st, xs) + " !!! decoding error: unexpected end of input"
  {
    hide Drain, FlatAll, Commas;
    ProperPush([], N(false));
    var ls := [Good(TArray(n))] + FlatAll(xs);
    assert ls[1..] == FlatAll(xs);
    Step(st, [], N(false), ls);
    ShowsMissing(st, [], n, xs);
    Unclosed(st, TArray(n), A(Some(n)), FlatAll(xs), "[", Commas(st, xs),
      " !!! decoding error: unexpected end of input");
  }

  /** And an indefinite string. */
  lemma {:induction false} DisplaysUnclosedString(st: Style, text: bool, cs: seq<Chunk>)
    ensures var open := if text then TBeginString else TBeginBytes;
            Displayed(st, [Good(open)] + ChunkTokens(text, cs)) == "(_ " + JoinChunks(st, text, cs)
              + if text then " !!! indefinite string not closed" else " !!! indefinite byte string not closed"
  {
    hide Drain, ChunkTokens, JoinChunks, Proper, RoundOn;
    var open, e := if text then TBeginString else TBeginBytes, if text then D else B;
    var inner := ChunkTokens(text, cs);
    assert inner + [] == inner;
    ChunksFollow(text, cs, []);
    assert !BreakNext(inner) by {
      if cs == [] {
        NoChunks(text);
      }
    }
    ShowsStringHead(st, [], false, text, inner);
    ShowsChunks(st, [], text, cs, []);
    ShowsUnclosed(st, [], e);
    Unclosed(st, open, e, inner, "(_ ", JoinChunks(st, text, cs),
      if text then " !!! indefinite string not closed" else " !!! indefinite byte string not closed");
  }

  lemma {:induction false} Unclosed(
    st: Style, t: Token, e: Elem, inner: seq<Lexeme>, open: string, body: string, missing: string)
    requires Proper([] + [e]) && Proper([] + [N(false)])
    requires Drain(st, [] + [N(false)], [Good(t)] + inner) == Before(open, Drain(st, [] + [e], inner))
    requires Drain(st, [] + [e], inner) == Before(body, Shown(missing, [], true))
    ensures Displayed(st, [Good(t)] + inner) == open + body + missing
  {
    hide Drain;
    assert [] + [N(false)] == [N(false)];
    var text := open + (body + missing);
    assert text + "" == text;
    Regroup(open, body, missing);
  }

  /** From bytes to text: what is displayed for the encoding of items is their diagnostic notation. */
  lemma {:induction false} DisplaysEncoding(st: Style, xs: seq<Item>)
    requires ValidAll(xs)
    ensures Displayed(st, TokensFrom(EncodeAll(xs), 0)) == DiagAll(st, xs)
  {
    hide TokensFrom, FlatAll, EncodeAll, Displayed, DiagAll;
    var buf := EncodeAll(xs);
    assert At(buf, 0, buf);
    TokenizesItems(buf, 0, xs);
    Drained(buf);
    assert FlatAll(xs) + [] == FlatAll(xs);
    DisplaysItems(st, xs);
  }

  /** From bytes to text with an error: the items in front of it, the error, and nothing after it. */
  lemma {:induction false} DisplaysEncodingThenError(st: Style, buf: bytes, pos: nat, xs: seq<Item>)
    requires ValidAll(xs) && At(buf, pos, EncodeAll(xs)) && TokenAt(buf, pos + |EncodeAll(xs)|).Err?
    ensures var e := TokenAt(buf, pos + |EncodeAll(xs)|).error;
            Displayed(st, TokensFrom(buf, pos))
            == DiagAll(st, xs) + if e == EndOfInput then "" else " !!! decoding error: " + st.error(e)
  {
    hide TokensFrom, FlatAll, EncodeAll, Displayed, DiagAll, TokenAt, At;
    var e := TokenAt(buf, pos + |EncodeAll(xs)|).error;
    TokensThenError(buf, pos, xs);
    if e == EndOfInput {
      DisplaysItems(st, xs);
      assert FlatAll(xs) + [] == FlatAll(xs) && DiagAll(st, xs) + "" == DiagAll(st, xs);
    } else {
      DisplaysError(st, xs, e);
      Regroup(DiagAll(st, xs), " !!! decoding error: ", st.error(e));
    }
  }
}
