/** The devicetree scanner of kernel/src/fdt.c over serialised trees. */
module Fdt {
  import opened Words
  import opened Options
  import opened DeviceTree

  const ALIGN_MASK: u64 := 0xffff_ffff_ffff_fffc   // ~0x3

  /** (c + 3) & ~0x3 */
  function AlignUp(c: nat): nat {
    And(c + 3, ALIGN_MASK)
  }

  lemma AlignUpIs(c: nat)
    requires c + 3 < WORD
    ensures AlignUp(c) == c + PadLength(c) && AlignUp(c) % 4 == 0
  {
    hide And;
    Literals();
    AndClear(c + 3, 2, 64);
  }

  /** Behind a name, fdt_find resumes at (c + 4) & ~0x3: the next token exactly when the name needs padding. */
  lemma ResumeExact(c: nat)
    requires c + 4 < WORD
    ensures And(c + 4, ALIGN_MASK) == AlignUp(c) <==> c % 4 != 0
    ensures c % 4 == 0 ==> And(c + 4, ALIGN_MASK) == AlignUp(c) + 4
  {
    hide And;
    AlignUpIs(c);
    Literals();
    AndClear(c + 4, 2, 64);
  }

  /** be_to_le: the value of size / 8 big-endian bytes; more than eight would shift beyond a uint64_t. */
  method BeToLe(size: nat, be: seq<u8>) returns (result: u64)
    requires size / 8 <= |be| && size <= 64
    ensures result == BeWord(be[..size / 8])
  {
    var n := size / 8;
    result := 0;
    var i := 0;
    while i < n
      invariant 0 <= i <= n
      invariant result == BeWord(be[..i]) * Pow2(8 * (n - i)) && BeWord(be[..i]) < Pow2(8 * i)
    {
      ShiftIn(be, i, n);
      result := Or64(result, Shl64(be[i], (n - i - 1) * 8));
      i := i + 1;
    }
    Literals();
  }

  lemma ShiftIn(be: seq<u8>, i: nat, n: nat)
    requires i < n <= |be| && n <= 8 && BeWord(be[..i]) < Pow2(8 * i)
    ensures BeWord(be[..i]) * Pow2(8 * (n - i)) < WORD
    ensures Or64(BeWord(be[..i]) * Pow2(8 * (n - i)), Shl64(be[i], (n - i - 1) * 8)) == BeWord(be[..i + 1]) * Pow2(8 * (n - i - 1))
    ensures BeWord(be[..i + 1]) < Pow2(8 * (i + 1))
  {
    hide Or, BeWord, Pow2;
    var v, k := BeWord(be[..i]), 8 * (n - i - 1);
    BeNext(be, i);
    Room(v, 8 * i, 8 * (n - i));
    Pow2Add(8 * i, 8);
    Literals();
    assert v * 256 + be[i] < Pow2(8 * (i + 1));
    Room(v * 256 + be[i], 8 * (i + 1), k);
    OrStep(v, be[i], k);
    Room(be[i], 8, k);
    DivModUnique(be[i] * Pow2(k), WORD, 0, be[i] * Pow2(k));
  }

  lemma BeNext(be: seq<u8>, i: nat)
    requires i < |be|
    ensures BeWord(be[..i + 1]) == BeWord(be[..i]) * 256 + be[i]
  {
    assert be[..i + 1][..i] == be[..i];
  }

  lemma Room(v: nat, j: nat, k: nat)
    requires v < Pow2(j) && j + k <= 64
    ensures v * Pow2(k) < WORD
  {
    hide Pow2;
    Literals();
    Scaled(v, Pow2(j), Pow2(k));
    Pow2Add(j, k);
    Pow2Monotone(j + k, 64);
  }

  /** One more byte is or-ed in below those already there. */
  lemma OrStep(v: nat, x: u8, k: nat)
    ensures Or(v * Pow2(k + 8), x * Pow2(k)) == (v * 256 + x) * Pow2(k)
  {
    hide Or, Pow2;
    var p := Pow2(k);
    Literals();
    Pow2Add(k, 8);
    assert Pow2(k + 8) == 256 * p;
    Scaled(x, 256, p);
    DivModUnique(v * (256 * p), 256 * p, v, 0);
    OrDisjoint(v * (256 * p), x * p, k + 8);
    Regroup(v, x, p);
  }

  lemma Regroup(v: int, x: int, p: int)
    ensures v * (256 * p) + x * p == (v * 256 + x) * p
  {
  }

  lemma Scaled(x: nat, bound: nat, p: nat)
    requires x < bound && p > 0
    ensures x * p < bound * p
  {
    MulAtLeast(p, bound - x);
    assert bound * p == x * p + (bound - x) * p;
  }

  /** while (*c++); */
  method SkipString(b: seq<u8>, from: nat) returns (c: nat)
    requires exists j :: from <= j < |b| && b[j] == 0
    ensures from < c <= |b| && b[c - 1] == 0 && forall j :: from <= j < c - 1 ==> b[j] != 0
  {
    c := from;
    while b[c] != 0
      invariant from <= c <= |b|
      invariant (forall j :: from <= j < c ==> b[j] != 0) && exists j :: c <= j < |b| && b[j] == 0
      decreases |b| - c
    {
      c := c + 1;
    }
    c := c + 1;
  }

  /** The first NUL behind a name is the name's own. */
  lemma NameEnd(b: seq<u8>, from: nat, name: seq<u8>, c: nat)
    requires NameOk(name) && from + |name| < |b| && b[from..from + |name|] == name && b[from + |name|] == 0
    requires from < c <= |b| && b[c - 1] == 0 && forall j :: from <= j < c - 1 ==> b[j] != 0
    ensures c == from + |name| + 1
  {
    forall j | from <= j < from + |name| ensures b[j] != 0 {
      assert b[j] == b[from..from + |name|][j - from];
    }
  }

  /** Stepping over BEGIN_NODE and the padded name. */
  method EnterNode(b: seq<u8>, node: nat, ghost name: seq<u8>, ghost t: seq<u8>) returns (inside: nat)
    requires |b| + 4 < WORD && node % 4 == 0 && node <= |b| && NameOk(name) && b[node..] == Open(name) + t
    ensures inside == node + |Open(name)| && inside <= |b| && inside % 4 == 0 && b[inside..] == t
  {
    hide Open, And;
    StepOpen(b, node, name, t);
    var c := SkipString(b, node + 4);
    NameEnd(b, node + 4, name, c);
    AlignUpIs(c);
    inside := AlignUp(c);
    assert PadLength(c) == PadLength(|name| + 1);
  }

  /** be_to_le(32, b + at) */
  method Word32(b: seq<u8>, at: nat) returns (w: nat)
    requires at + 4 <= |b|
    ensures w == Token(b, at)
  {
    w := BeToLe(32, b[at..at + 4]);
    assert b[at..at + 4][..4] == b[at..at + 4];
  }

  /** What the next token says about the innermost node's next item. */
  lemma NextToken(b: seq<u8>, pos: nat, stack: seq<Items>, end: nat, post: seq<u8>)
    requires Behind(b, pos, stack, end, post) && stack != []
    ensures pos + 4 <= |b| && Token(b, pos) ==
      match stack[0] {
        case Close => if |stack| == 1 then end else FDT_END_NODE
        case Nop(_) => FDT_NOP
        case Prop(_, _, _) => FDT_PROP
        case Sub(_, _, _) => FDT_BEGIN_NODE }
  {
    hide SerStack, Open, Token;
    match stack[0]
    case Close => StepClose(b, pos, stack, end, post);
    case Nop(_) => StepNop(b, pos, stack, end, post);
    case Prop(_, _, _) => StepProp(b, pos, stack, end, post);
    case Sub(_, _, _) =>
      StepSub(b, pos, stack, end, post);
      StepOpen(b, pos, stack[0].name, SerStack([stack[0].body, stack[0].rest] + stack[1..], end) + post);
  }

  /** The first item is done. */
  function Rest(stack: seq<Items>): seq<Items>
    requires stack != [] && !stack[0].Close?
  {
    [stack[0].rest] + stack[1..]
  }

  /** The first item is a node, now entered. */
  function Inner(stack: seq<Items>): seq<Items>
    requires stack != [] && stack[0].Sub?
  {
    [stack[0].body, stack[0].rest] + stack[1..]
  }

  method EnterSub(b: seq<u8>, node: nat, ghost stack: seq<Items>, ghost end: nat, ghost post: seq<u8>) returns (inside: nat)
    requires |b| + 4 < WORD && node % 4 == 0 && Behind(b, node, stack, end, post) && stack != [] && stack[0].Sub?
    ensures inside == node + |Open(stack[0].name)| && inside % 4 == 0 && Behind(b, inside, Inner(stack), end, post)
  {
    hide Open, SerStack;
    StepSub(b, node, stack, end, post);
    inside := EnterNode(b, node, stack[0].name, SerStack(Inner(stack), end) + post);
  }

  /** The words of a property, and the position behind its padded value. */
  method ReadProp(b: seq<u8>, node: nat, ghost stack: seq<Items>, ghost end: nat, ghost post: seq<u8>)
    returns (len: nat, nameOffset: nat, data: nat, next: nat)
    requires |b| + 4 < WORD && node % 4 == 0 && Behind(b, node, stack, end, post) && stack != [] && stack[0].Prop?
    ensures data + len <= |b| && b[data..data + len] == stack[0].value && nameOffset == stack[0].nameOff
    ensures nameOffset < U32 && len < U32 && next == node + |PropBytes(stack[0].nameOff, stack[0].value)| && next % 4 == 0
    ensures Behind(b, next, Rest(stack), end, post)
  {
    hide And, PropBytes, SerStack, Token;
    StepProp(b, node, stack, end, post);
    len := Word32(b, node + 4);
    nameOffset := Word32(b, node + 8);
    data := node + 12;
    AlignUpIs(data + len);
    next := AlignUp(data + len);
    assert PadLength(data + len) == PadLength(len);
  }

  /** Which of two strings comes first. */
  function Order(a: seq<u8>, b: seq<u8>): int {
    if a == [] then (if b == [] then 0 else -1)
    else if b == [] then 1
    else if a[0] < b[0] then -1 else if a[0] > b[0] then 1 else Order(a[1..], b[1..])
  }

  lemma {:induction false} OrderZero(a: seq<u8>, b: seq<u8>)
    ensures Order(a, b) == 0 <==> a == b
    ensures Order(b, a) == 0 - Order(a, b)
  {
    if a != [] && b != [] {
      OrderZero(a[1..], b[1..]);
      assert a == [a[0]] + a[1..] && b == [b[0]] + b[1..];
    }
  }

  /** The character at i; a string ends where its block does. */
  function CharAt(s: seq<u8>, i: nat): u8 {
    if i < |s| then s[i] else 0
  }

  /** strcmp of the strings at two offsets. */
  method StrCmp(s: seq<u8>, off: nat, t: seq<u8>, at: nat) returns (r: int)
    ensures r == Order(CString(s, off), CString(t, at))
  {
    var i, j := off, at;
    while CharAt(s, i) != 0 && CharAt(t, j) != 0
      invariant i >= off && j >= at
      invariant Order(CString(s, i), CString(t, j)) == Order(CString(s, off), CString(t, at))
      decreases |s| - i
    {
      if s[i] < t[j] {
        return -1;
      } else if s[i] > t[j] {
        return 1;
      }
      assert CString(s, i)[1..] == CString(s, i + 1) && CString(t, j)[1..] == CString(t, j + 1);
      i, j := i + 1, j + 1;
    }
    if CharAt(s, i) < CharAt(t, j) {
      return -1;
    } else if CharAt(s, i) > CharAt(t, j) {
      return 1;
    }
    return 0;
  }

  datatype FdtProperty = FdtProperty(len: nat, key: nat, data: nat)

  /** What fdt_get_property has to return for a node with these contents. */
  ghost predicate Answers(b: seq<u8>, r: Option<FdtProperty>, first: Option<(nat, seq<u8>)>) {
    match r
    case None => first.None?
    case Some(p) =>
      p.data + p.len <= |b| && first == Some((p.key, b[p.data..p.data + p.len]))
  }

  /** What is wanted of the outermost node, item by item. */
  function Wanted(stack: seq<Items>, strings: seq<u8>, key: seq<u8>): Option<(nat, seq<u8>)> {
    if stack == [] then None else FirstProperty(stack[|stack| - 1], strings, key)
  }

  lemma BehindItems(b: seq<u8>, pos: nat, stack: seq<Items>, end: nat, post: seq<u8>)
    requires Behind(b, pos, stack, end, post)
    ensures forall i :: 0 <= i < |stack| ==> ItemsOk(stack[i])
  {
  }

  lemma WantedStarts(b: seq<u8>, strings: seq<u8>, pos: nat, key: seq<u8>, body: Items, post: seq<u8>)
    requires pos <= |b| && ItemsOk(body) && b[pos..] == Ser(body, FDT_END_NODE) + post
    ensures Behind(b, pos, [body], FDT_END_NODE, post)
    ensures Wanted([body], strings, key) == FirstProperty(body, strings, key)
  {
  }

  lemma AnswersNone(b: seq<u8>, strings: seq<u8>, key: seq<u8>)
    ensures Wanted([], strings, key) == None && Answers(b, None, None)
  {
  }

  lemma AnswersSome(b: seq<u8>, p: FdtProperty, nameOff: nat, value: seq<u8>)
    requires p.key == nameOff && p.data + p.len <= |b| && b[p.data..p.data + p.len] == value
    ensures Answers(b, Some(p), Some((nameOff, value)))
  {
  }

  /** Only the outermost node's own properties can answer. */
  lemma WantedStep(stack: seq<Items>, strings: seq<u8>, key: seq<u8>)
    requires stack != []
    ensures stack[0].Close? ==> Wanted(stack, strings, key) == Wanted(stack[1..], strings, key)
    ensures stack[0].Nop? ==> Wanted(stack, strings, key) == Wanted(Rest(stack), strings, key)
    ensures stack[0].Sub? ==> Wanted(stack, strings, key) == Wanted(Inner(stack), strings, key)
    ensures stack[0].Prop? ==>
      Wanted(stack, strings, key) ==
        if |stack| == 1 && CString(strings, stack[0].nameOff) == key then Some((stack[0].nameOff, stack[0].value))
        else Wanted(Rest(stack), strings, key)
  {
    hide CString;
  }

  /**
   * fdt_get_property at the offset of a node (0 when the caller passes NULL) in the structure block. The ghost
   * parameters name the node that is serialised there, when there is one, and what follows it. The key ends at its
   * first NUL.
   */
  method GetProperty(b: seq<u8>, strings: seq<u8>, at: Option<nat>, key: seq<u8>,
                     ghost name: seq<u8>, ghost body: Items, ghost post: seq<u8>)
    returns (r: Option<FdtProperty>)
    requires |b| + 4 < WORD
    requires var node := if at.None? then 0 else at.value;
      && node % 4 == 0 && node + 4 <= |b|
      && (Token(b, node) == FDT_BEGIN_NODE ==>
            NameOk(name) && ItemsOk(body) && b[node..] == Open(name) + (Ser(body, FDT_END_NODE) + post))
    ensures var node := if at.None? then 0 else at.value;
      if Token(b, node) == FDT_BEGIN_NODE then Answers(b, r, FirstProperty(body, strings, CString(key, 0))) else r == None
  {
    hide Token, Open, Ser, SerStack, Answers, CString, Behind, PropBytes, AlignUp, And, Wanted, FirstProperty;
    var node := if at.None? then 0 else at.value;
    var current := Word32(b, node);
    if current != FDT_BEGIN_NODE {
      return None;
    }
    ghost var wanted := CString(key, 0);
    ghost var want := FirstProperty(body, strings, wanted);
    var depth := 0;
    ghost var stack: seq<Items> := [];
    while current != FDT_END
      invariant node % 4 == 0 && node + 4 <= |b| && current == Token(b, node) && depth == |stack|
      invariant depth == 0 ==> current == FDT_BEGIN_NODE && b[node..] == Open(name) + (Ser(body, FDT_END_NODE) + post)
      invariant depth > 0 ==> Behind(b, node, stack, FDT_END_NODE, post) && Wanted(stack, strings, wanted) == want
      decreases |b| - node
    {
      if depth > 0 {
        NextToken(b, node, stack, FDT_END_NODE, post);
        WantedStep(stack, strings, wanted);
      }
      if current == FDT_BEGIN_NODE {
        depth := depth + 1;
        if depth == 1 {
          node := EnterNode(b, node, name, Ser(body, FDT_END_NODE) + post);
          stack := [body];
          WantedStarts(b, strings, node, wanted, body, post);
        } else {
          node := EnterSub(b, node, stack, FDT_END_NODE, post);
          stack := Inner(stack);
        }
      } else if current == FDT_END_NODE {
        depth := depth - 1;
        if depth == 0 {
          AnswersNone(b, strings, wanted);
          assert stack[1..] == [] && want == None;
          return None;
        }
        StepClose(b, node, stack, FDT_END_NODE, post);
        node := node + 4;
        stack := stack[1..];
      } else if current == FDT_PROP {
        var len, nameOffset, data, next := ReadProp(b, node, stack, FDT_END_NODE, post);
        if depth == 1 {
          var differ := StrCmp(strings, nameOffset, key, 0);
          OrderZero(CString(strings, nameOffset), wanted);
          if differ == 0 {
            r := Some(FdtProperty(len, nameOffset, data));
            AnswersSome(b, r.value, stack[0].nameOff, stack[0].value);
            return;
          }
        }
        node := next;
        stack := Rest(stack);
      } else {
        StepNop(b, node, stack, FDT_END_NODE, post);
        node := node + 4;
        stack := Rest(stack);
      }
      NextToken(b, node, stack, FDT_END_NODE, post);
      current := Word32(b, node);
    }
    if depth > 0 {
      NextToken(b, node, stack, FDT_END_NODE, post);
    }
    assert false;
    r := None;
  }
}
