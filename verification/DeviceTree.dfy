/**
 * The structure block of a flattened devicetree (Devicetree Specification v0.4, section 5.4): trees,
 * their serialised form, and what lookups in them mean.
 */
module DeviceTree {
  import opened Words
  import opened Options

  const FDT_BEGIN_NODE := 1
  const FDT_END_NODE := 2
  const FDT_PROP := 3
  const FDT_NOP := 4
  const FDT_END := 9
  const U32: int := 0x1_0000_0000

  /** The contents of a node in order, up to the token that closes it. */
  datatype Items =
    | Close
    | Nop(rest: Items)
    | Prop(nameOff: nat, value: seq<u8>, rest: Items)
    | Sub(name: seq<u8>, body: Items, rest: Items)

  /** The value of big-endian bytes. */
  function BeWord(b: seq<u8>): nat {
    if b == [] then 0 else BeWord(b[..|b| - 1]) * 256 + b[|b| - 1]
  }

  /** A 32-bit big-endian word. */
  function Tok(w: nat): (b: seq<u8>)
    requires w < U32
    ensures |b| == 4
  {
    [w / 0x100_0000, w / 0x1_0000 % 256, w / 0x100 % 256, w % 256]
  }

  function PadLength(n: nat): nat {
    (4 - n % 4) % 4
  }

  function Padding(n: nat): (z: seq<u8>)
    ensures |z| == PadLength(n) && (n + |z|) % 4 == 0
  {
    seq(PadLength(n), _ => 0)
  }

  predicate NameOk(name: seq<u8>) {
    forall i :: 0 <= i < |name| ==> name[i] != 0
  }

  predicate ItemsOk(t: Items) {
    match t
    case Close => true
    case Nop(rest) => ItemsOk(rest)
    case Prop(nameOff, value, rest) => nameOff < U32 && |value| < U32 && ItemsOk(rest)
    case Sub(name, body, rest) => NameOk(name) && ItemsOk(body) && ItemsOk(rest)
  }

  /** A node up to its contents: the token, the name with its NUL, zero padding. */
  function Open(name: seq<u8>): (s: seq<u8>)
    ensures |s| == 5 + |name| + PadLength(|name| + 1)
  {
    Tok(FDT_BEGIN_NODE) + (name + [0] + Padding(|name| + 1))
  }

  function PropBytes(nameOff: nat, value: seq<u8>): (s: seq<u8>)
    requires nameOff < U32 && |value| < U32
    ensures |s| == 12 + |value| + PadLength(|value|)
  {
    Tok(FDT_PROP) + (Tok(|value|) + (Tok(nameOff) + (value + Padding(|value|))))
  }

  /** Contents in serialised form; `end` is the token that closes them. */
  function Ser(t: Items, end: nat): (s: seq<u8>)
    requires ItemsOk(t) && end < U32
    ensures |s| >= 4
  {
    match t
    case Close => Tok(end)
    case Nop(rest) => Tok(FDT_NOP) + Ser(rest, end)
    case Prop(nameOff, value, rest) => PropBytes(nameOff, value) + Ser(rest, end)
    case Sub(name, body, rest) => Open(name) + (Ser(body, FDT_END_NODE) + Ser(rest, end))
  }

  /** What is left to read inside nested nodes, innermost first; `end` closes the outermost. */
  function SerStack(stack: seq<Items>, end: nat): seq<u8>
    requires (forall i :: 0 <= i < |stack| ==> ItemsOk(stack[i])) && end < U32
  {
    if stack == [] then []
    else if |stack| == 1 then Ser(stack[0], end)
    else Ser(stack[0], FDT_END_NODE) + SerStack(stack[1..], end)
  }

  /** The NUL-terminated string at an offset of the strings block. */
  function CString(s: seq<u8>, off: nat): seq<u8>
    decreases |s| - off
  {
    if off < |s| && s[off] != 0 then [s[off]] + CString(s, off + 1) else []
  }

  lemma SliceFirst(s: seq<u8>, off: nat, n: nat)
    requires 0 < n && off + n <= |s|
    ensures s[off..off + n] == [s[off]] + s[off + 1..off + n]
  {
  }

  /** It is the bytes from there up to the first NUL or the end of the block, and nothing else is. */
  lemma {:induction false} CStringExact(s: seq<u8>, off: nat, k: seq<u8>)
    requires off <= |s|
    ensures CString(s, off) == k <==>
      && NameOk(k) && off + |k| <= |s| && s[off..off + |k|] == k && (off + |k| < |s| ==> s[off + |k|] == 0)
    decreases |s| - off
  {
    if off < |s| && s[off] != 0 {
      if k == [] {
        assert s[off + |k|] != 0;
      } else {
        CStringExact(s, off + 1, k[1..]);
        if off + |k| <= |s| {
          SliceFirst(s, off, |k|);
        }
        assert k == [k[0]] + k[1..];
      }
    } else if k != [] && off + |k| <= |s| && s[off..off + |k|] == k {
      SliceFirst(s, off, |k|);
    }
  }

  /** A string without NUL is its own. */
  lemma WholeString(k: seq<u8>)
    requires NameOk(k)
    ensures CString(k, 0) == k
  {
    CStringExact(k, 0, k);
  }

  /** A strings block: names with their NULs, one behind the other. */
  function StringsBlock(names: seq<seq<u8>>): seq<u8> {
    if names == [] then [] else StringsBlock(names[..|names| - 1]) + names[|names| - 1] + [0]
  }

  /** Where name i begins in it. */
  function NameOffset(names: seq<seq<u8>>, i: nat): nat
    requires i <= |names|
  {
    |StringsBlock(names[..i])|
  }

  lemma {:induction false} BlockGrows(names: seq<seq<u8>>, i: nat)
    requires i <= |names|
    ensures StringsBlock(names[..i]) <= StringsBlock(names)
  {
    if i < |names| {
      BlockGrows(names[..|names| - 1], i);
      assert names[..|names| - 1][..i] == names[..i];
    } else {
      assert names[..i] == names;
    }
  }

  /** The string at the offset of a name is the name. */
  lemma NameAt(names: seq<seq<u8>>, i: nat)
    requires i < |names| && NameOk(names[i])
    ensures CString(StringsBlock(names), NameOffset(names, i)) == names[i]
  {
    hide StringsBlock, CString;
    BlockGrows(names, i + 1);
    BlockNext(names, i);
    var before, s, k := StringsBlock(names[..i]), StringsBlock(names), names[i];
    assert before + k + [0] <= s;
    SliceBehind(before, k + [0], 0, |k|);
    assert (before + k + [0])[|before| + |k|] == 0;
    assert s[|before|..|before| + |k|] == k;
    CStringExact(s, |before|, k);
  }

  lemma BlockNext(names: seq<seq<u8>>, i: nat)
    requires i < |names|
    ensures StringsBlock(names[..i + 1]) == StringsBlock(names[..i]) + names[i] + [0]
  {
    assert names[..i + 1][..i] == names[..i];
  }

  /** The node's own first property of that name; those of nodes inside it do not count. */
  function FirstProperty(t: Items, strings: seq<u8>, key: seq<u8>): Option<(nat, seq<u8>)> {
    match t
    case Close => None
    case Nop(rest) => FirstProperty(rest, strings, key)
    case Prop(nameOff, value, rest) =>
      if CString(strings, nameOff) == key then Some((nameOff, value)) else FirstProperty(rest, strings, key)
    case Sub(_, _, rest) => FirstProperty(rest, strings, key)
  }

  /** The properties written directly in a node. */
  function OwnProperties(t: Items): seq<(nat, seq<u8>)> {
    match t
    case Close => []
    case Nop(rest) => OwnProperties(rest)
    case Prop(nameOff, value, rest) => [(nameOff, value)] + OwnProperties(rest)
    case Sub(_, _, rest) => OwnProperties(rest)
  }

  /** r is the first of these properties that has the name, or none has it. */
  ghost predicate IsFirst(own: seq<(nat, seq<u8>)>, strings: seq<u8>, key: seq<u8>, r: Option<(nat, seq<u8>)>) {
    match r
    case None => forall i {:trigger own[i]} :: 0 <= i < |own| ==> CString(strings, own[i].0) != key
    case Some(p) =>
      && CString(strings, p.0) == key
      && exists i {:trigger own[i]} ::
        0 <= i < |own| && own[i] == p && forall j {:trigger own[j]} :: 0 <= j < i ==> CString(strings, own[j].0) != key
  }

  /** The lookup finds an own property, the first of its name, exactly when there is one. */
  lemma {:induction false} FirstIsOwn(t: Items, strings: seq<u8>, key: seq<u8>)
    ensures IsFirst(OwnProperties(t), strings, key, FirstProperty(t, strings, key))
  {
    match t
    case Close =>
    case Nop(rest) => FirstIsOwn(rest, strings, key);
    case Sub(_, _, rest) => FirstIsOwn(rest, strings, key);
    case Prop(nameOff, value, rest) =>
      FirstIsOwn(rest, strings, key);
      IsFirstCons((nameOff, value), OwnProperties(rest), strings, key, FirstProperty(rest, strings, key));
  }

  /** In terms of names: own property i has the name names[at[i]], and the answer is the first one that has the key's. */
  lemma FirstNamed(t: Items, names: seq<seq<u8>>, at: seq<nat>, key: seq<u8>)
    requires |at| == |OwnProperties(t)| && forall i :: 0 <= i < |at| ==>
      at[i] < |names| && NameOk(names[at[i]]) && OwnProperties(t)[i].0 == NameOffset(names, at[i])
    ensures match FirstProperty(t, StringsBlock(names), key)
      case None => forall i :: 0 <= i < |at| ==> names[at[i]] != key
      case Some(p) => exists i :: 0 <= i < |at| && p == OwnProperties(t)[i] && names[at[i]] == key
                                  && forall j :: 0 <= j < i ==> names[at[j]] != key
  {
    hide CString, StringsBlock, NameOffset;
    var own, s := OwnProperties(t), StringsBlock(names);
    FirstIsOwn(t, s, key);
    forall i | 0 <= i < |at| ensures CString(s, own[i].0) == names[at[i]] {
      NameAt(names, at[i]);
    }
    var r := FirstProperty(t, s, key);
    if r.Some? {
      var i :| 0 <= i < |own| && own[i] == r.value && forall j {:trigger own[j]} :: 0 <= j < i ==> CString(s, own[j].0) != key;
      assert names[at[i]] == key;
      forall j | 0 <= j < i ensures names[at[j]] != key {
        assert CString(s, own[j].0) != key;
      }
    }
  }

  lemma IsFirstCons(p: (nat, seq<u8>), own: seq<(nat, seq<u8>)>, strings: seq<u8>, key: seq<u8>, r: Option<(nat, seq<u8>)>)
    requires IsFirst(own, strings, key, r)
    ensures IsFirst([p] + own, strings, key, if CString(strings, p.0) == key then Some(p) else r)
  {
    hide CString;
    var own' := [p] + own;
    if CString(strings, p.0) == key {
      assert own'[0] == p;
    } else if r.Some? {
      var i :| 0 <= i < |own| && own[i] == r.value && forall j {:trigger own[j]} :: 0 <= j < i ==> CString(strings, own[j].0) != key;
      assert own'[i + 1] == r.value;
    }
  }

  /** A node name up to its unit address. */
  function Stem(name: seq<u8>): (s: seq<u8>)
    ensures s <= name && '@' as int !in s && (|s| < |name| ==> name[|s|] == '@' as int)
  {
    if name == [] || name[0] == '@' as int then [] else [name[0]] + Stem(name[1..])
  }

  /** The offset of the first node of that stem, in document order, when the contents start at off. */
  function FirstNode(t: Items, off: nat, key: seq<u8>): Option<nat>
    requires ItemsOk(t)
  {
    match t
    case Close => None
    case Nop(rest) => FirstNode(rest, off + 4, key)
    case Prop(nameOff, value, rest) => FirstNode(rest, off + |PropBytes(nameOff, value)|, key)
    case Sub(name, body, rest) =>
      if Stem(name) == key then Some(off)
      else
        var inside := FirstNode(body, off + |Open(name)|, key);
        if inside.Some? then inside
        else FirstNode(rest, off + |Open(name)| + |Ser(body, FDT_END_NODE)|, key)
  }

  function FirstNodeIn(stack: seq<Items>, off: nat, key: seq<u8>): Option<nat>
    requires forall i :: 0 <= i < |stack| ==> ItemsOk(stack[i])
  {
    if stack == [] then None
    else
      var here := FirstNode(stack[0], off, key);
      if here.Some? then here else FirstNodeIn(stack[1..], off + |Ser(stack[0], FDT_END_NODE)|, key)
  }

  /** The bytes of a small tree: a property, a NOP and an empty node in the root, and the end of the block. */
  lemma SmallTree()
    ensures var t := Prop(7, [1, 2, 3, 4, 5], Nop(Sub([97, 98], Close, Close)));
      && ItemsOk(t)
      && Open([]) + (Ser(t, FDT_END_NODE) + Tok(FDT_END)) ==
        [0, 0, 0, 1, 0, 0, 0, 0] +
        [0, 0, 0, 3, 0, 0, 0, 5, 0, 0, 0, 7, 1, 2, 3, 4, 5, 0, 0, 0] +
        [0, 0, 0, 4] +
        [0, 0, 0, 1, 97, 98, 0, 0, 0, 0, 0, 2] +
        [0, 0, 0, 2] + [0, 0, 0, 9]
  {
    SmallPieces();
    hide Open, PropBytes, Tok;
    var inner := Sub([97, 98], Close, Close);
    assert Ser(Close, FDT_END_NODE) == [0, 0, 0, 2];
    assert Ser(inner, FDT_END_NODE) == [0, 0, 0, 1, 97, 98, 0, 0, 0, 0, 0, 2] + [0, 0, 0, 2];
  }

  lemma SmallPieces()
    ensures Open([]) == [0, 0, 0, 1, 0, 0, 0, 0] && Open([97, 98]) == [0, 0, 0, 1, 97, 98, 0, 0]
    ensures PropBytes(7, [1, 2, 3, 4, 5]) == [0, 0, 0, 3, 0, 0, 0, 5, 0, 0, 0, 7, 1, 2, 3, 4, 5, 0, 0, 0]
    ensures Tok(FDT_END_NODE) == [0, 0, 0, 2] && Tok(FDT_NOP) == [0, 0, 0, 4] && Tok(FDT_END) == [0, 0, 0, 9]
  {
  }

  // ----- reading the serialised form back -----

  lemma BeFour(b: seq<u8>)
    requires |b| == 4
    ensures BeWord(b) == ((b[0] as int * 256 + b[1]) * 256 + b[2]) * 256 + b[3]
  {
    assert BeWord(b[..1]) == b[0] by { assert b[..1][..0] == []; }
    assert b[..2][..1] == b[..1] && b[..3][..2] == b[..2];
    assert BeWord(b[..2]) == BeWord(b[..1]) * 256 + b[1];
    assert BeWord(b[..3]) == BeWord(b[..2]) * 256 + b[2];
  }

  lemma TokWord(w: nat)
    requires w < U32
    ensures BeWord(Tok(w)) == w
  {
    hide BeWord;
    BeFour(Tok(w));
    assert w / 0x1_0000 == w / 0x100_0000 * 256 + w / 0x1_0000 % 256;
    assert w / 0x100 == w / 0x1_0000 * 256 + w / 0x100 % 256;
  }

  /** Bytes that start with s, at position pos of b: reading s moves on to what follows. */
  lemma After(b: seq<u8>, pos: nat, s: seq<u8>, t: seq<u8>)
    requires pos <= |b| && b[pos..] == s + t
    ensures pos + |s| <= |b| && b[pos..pos + |s|] == s && b[pos + |s|..] == t
  {
    assert b[pos..pos + |s|] == b[pos..][..|s|] == s;
    assert b[pos + |s|..] == b[pos..][|s|..] == t;
  }

  lemma TokenAt(b: seq<u8>, pos: nat, w: nat, t: seq<u8>)
    requires pos <= |b| && w < U32 && b[pos..] == Tok(w) + t
    ensures pos + 4 <= |b| && BeWord(b[pos..pos + 4]) == w && b[pos + 4..] == t
  {
    After(b, pos, Tok(w), t);
    TokWord(w);
  }

  /** At pos the block holds what is left of the nodes on the stack, then `post`. */
  ghost predicate Behind(b: seq<u8>, pos: nat, stack: seq<Items>, end: nat, post: seq<u8>) {
    && pos <= |b| && (forall i :: 0 <= i < |stack| ==> ItemsOk(stack[i])) && end < U32
    && b[pos..] == SerStack(stack, end) + post
  }

  function Token(b: seq<u8>, pos: nat): nat
    requires pos + 4 <= |b|
  {
    BeWord(b[pos..pos + 4])
  }

  /** Taking an item off the innermost node takes its bytes off the front. */
  lemma Peel(stack: seq<Items>, rest: Items, end: nat, s: seq<u8>)
    requires stack != [] && (forall i :: 0 <= i < |stack| ==> ItemsOk(stack[i])) && ItemsOk(rest) && end < U32
    requires forall e {:trigger Ser(rest, e)} :: 0 <= e < U32 ==> Ser(stack[0], e) == s + Ser(rest, e)
    ensures SerStack(stack, end) == s + SerStack([rest] + stack[1..], end)
  {
    hide Ser;
    var stack' := [rest] + stack[1..];
    assert stack'[1..] == stack[1..] && stack'[0] == rest;
    assert Ser(stack[0], end) == s + Ser(rest, end);
    assert Ser(stack[0], FDT_END_NODE) == s + Ser(rest, FDT_END_NODE);
  }

  lemma StepNop(b: seq<u8>, pos: nat, stack: seq<Items>, end: nat, post: seq<u8>)
    requires Behind(b, pos, stack, end, post) && stack != [] && stack[0].Nop?
    ensures pos + 4 <= |b| && Token(b, pos) == FDT_NOP
    ensures Behind(b, pos + 4, [stack[0].rest] + stack[1..], end, post)
  {
    hide SerStack, BeWord, Tok;
    var rest := stack[0].rest;
    Peel(stack, rest, end, Tok(FDT_NOP));
    var t := SerStack([rest] + stack[1..], end) + post;
    assert b[pos..] == Tok(FDT_NOP) + t;
    TokenAt(b, pos, FDT_NOP, t);
  }

  lemma StepClose(b: seq<u8>, pos: nat, stack: seq<Items>, end: nat, post: seq<u8>)
    requires Behind(b, pos, stack, end, post) && stack != [] && stack[0].Close?
    ensures pos + 4 <= |b| && Token(b, pos) == if |stack| == 1 then end else FDT_END_NODE
    ensures |stack| > 1 ==> Behind(b, pos + 4, stack[1..], end, post)
  {
    hide BeWord, Tok;
    var e := if |stack| == 1 then end else FDT_END_NODE;
    var t := (if |stack| == 1 then [] else SerStack(stack[1..], end)) + post;
    assert b[pos..] == Tok(e) + t;
    TokenAt(b, pos, e, t);
  }

  lemma StepProp(b: seq<u8>, pos: nat, stack: seq<Items>, end: nat, post: seq<u8>)
    requires Behind(b, pos, stack, end, post) && stack != [] && stack[0].Prop?
    ensures var n := |stack[0].value|;
      && pos + 12 + n <= |b| && n < U32 && stack[0].nameOff < U32
      && Token(b, pos) == FDT_PROP && Token(b, pos + 4) == n && Token(b, pos + 8) == stack[0].nameOff
      && b[pos + 12..pos + 12 + n] == stack[0].value
      && Behind(b, pos + |PropBytes(stack[0].nameOff, stack[0].value)|, [stack[0].rest] + stack[1..], end, post)
  {
    hide SerStack, BeWord, Tok;
    var Prop(nameOff, v, rest) := stack[0];
    var s := PropBytes(nameOff, v);
    Peel(stack, rest, end, s);
    var t := SerStack([rest] + stack[1..], end) + post;
    assert b[pos..] == s + t;
    After(b, pos, s, t);
    PropWords(b, pos, nameOff, v, t);
  }

  lemma PropWords(b: seq<u8>, pos: nat, nameOff: nat, v: seq<u8>, t: seq<u8>)
    requires pos <= |b| && nameOff < U32 && |v| < U32 && b[pos..] == PropBytes(nameOff, v) + t
    ensures pos + 12 + |v| <= |b| && b[pos + 12..pos + 12 + |v|] == v
    ensures Token(b, pos) == FDT_PROP && Token(b, pos + 4) == |v| && Token(b, pos + 8) == nameOff
  {
    hide BeWord, Tok, Padding;
    var t3 := v + Padding(|v|);
    var t2 := Tok(nameOff) + t3;
    WordThen(b, pos, FDT_PROP, Tok(|v|) + t2, t);
    WordThen(b, pos + 4, |v|, t2, t);
    WordThen(b, pos + 8, nameOff, t3, t);
    assert (v + Padding(|v|)) + t == v + (Padding(|v|) + t);
    After(b, pos + 12, v, Padding(|v|) + t);
  }

  /** A word, then r, then t. */
  lemma WordThen(b: seq<u8>, pos: nat, w: nat, r: seq<u8>, t: seq<u8>)
    requires pos <= |b| && w < U32 && b[pos..] == (Tok(w) + r) + t
    ensures pos + 4 <= |b| && Token(b, pos) == w && b[pos + 4..] == r + t
  {
    hide BeWord, Tok;
    assert (Tok(w) + r) + t == Tok(w) + (r + t);
    TokenAt(b, pos, w, r + t);
  }

  /** A node begins at pos: its token, its name up to the first NUL, and its contents further on. */
  lemma StepOpen(b: seq<u8>, pos: nat, name: seq<u8>, t: seq<u8>)
    requires pos <= |b| && b[pos..] == Open(name) + t && NameOk(name)
    ensures pos + 5 + |name| <= |b| && Token(b, pos) == FDT_BEGIN_NODE
    ensures b[pos + 4..pos + 4 + |name|] == name && b[pos + 4 + |name|] == 0
    ensures pos + |Open(name)| <= |b| && b[pos + |Open(name)|..] == t
  {
    hide BeWord, Tok;
    var z := Padding(|name| + 1);
    After(b, pos, Open(name), t);
    assert b[pos..] == Tok(FDT_BEGIN_NODE) + ((name + [0] + z) + t);
    TokenAt(b, pos, FDT_BEGIN_NODE, (name + [0] + z) + t);
    assert b[pos + 4..] == name + ([0] + z + t);
    After(b, pos + 4, name, [0] + z + t);
    assert b[pos + 4 + |name|] == b[pos + 4 + |name|..][0];
  }

  lemma SerInner(body: Items, stack: seq<Items>, end: nat)
    requires stack != [] && ItemsOk(body) && (forall i :: 0 <= i < |stack| ==> ItemsOk(stack[i])) && end < U32
    ensures SerStack([body] + stack, end) == Ser(body, FDT_END_NODE) + SerStack(stack, end)
  {
    hide Ser;
    assert ([body] + stack)[1..] == stack;
  }

  lemma StepSub(b: seq<u8>, pos: nat, stack: seq<Items>, end: nat, post: seq<u8>)
    requires Behind(b, pos, stack, end, post) && stack != [] && stack[0].Sub?
    ensures var name := stack[0].name; var stack' := [stack[0].body, stack[0].rest] + stack[1..];
      && NameOk(name) && (forall i :: 0 <= i < |stack'| ==> ItemsOk(stack'[i]))
      && b[pos..] == Open(name) + (SerStack(stack', end) + post)
  {
    hide SerStack, Open;
    var Sub(name, body, rest) := stack[0];
    var stack1 := [rest] + stack[1..];
    var stack' := [body, rest] + stack[1..];
    Peel(stack, rest, end, Open(name) + Ser(body, FDT_END_NODE));
    assert stack'[1..] == stack1;
    SerInner(body, stack1, end);
    assert stack' == [body] + stack1;
  }
}
