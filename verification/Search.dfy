/** fdt_find of kernel/src/fdt.c on any bytes, and what it finds in serialised trees. */
module Search {
  import opened Words
  import opened Options
  import opened DeviceTree
  import opened Fdt

  /** What the search comes to: a node, the end of the block, a token it never leaves, or a read outside the block. */
  datatype Answer = Found(at: nat) | Nothing | Hangs | Leaves

  datatype Compared = Same | Differs(c: nat) | Outside

  /** The comparison of a node's name, up to its NUL or '@', with the wanted one, from c on. */
  function Compare(b: seq<u8>, c: nat, wanted: seq<u8>): (r: Compared)
    ensures r.Differs? ==> c <= r.c < |b|
    decreases |b| - c
  {
    if c >= |b| then Outside
    else if b[c] == 0 || b[c] == '@' as int then (if wanted == [] then Same else Differs(c))
    else if wanted == [] || b[c] != wanted[0] then Differs(c)
    else Compare(b, c + 1, wanted[1..])
  }

  function NulAt(b: seq<u8>, c: nat): (r: Option<nat>)
    ensures r.Some? ==> c <= r.value < |b| && b[r.value] == 0 && forall j :: c <= j < r.value ==> b[j] != 0
    decreases |b| - c
  {
    if c >= |b| then None else if b[c] == 0 then Some(c) else NulAt(b, c + 1)
  }

  /** The next multiple of four. */
  function Up(c: nat): (u: nat)
    ensures u >= c
  {
    c + PadLength(c)
  }

  /** Where the loop of fdt_find gets from `at`. */
  function Search(b: seq<u8>, at: nat, wanted: seq<u8>): Answer
    decreases |b| - at
  {
    if at + 4 > |b| then Leaves
    else if Token(b, at) == FDT_END then Nothing
    else if Token(b, at) == FDT_BEGIN_NODE then
      match Compare(b, at + 4, wanted)
      case Same => Found(at)
      case Outside => Leaves
      case Differs(c) => if NulAt(b, c).None? then Leaves else Search(b, Up(NulAt(b, c).value + 1), wanted)
    else if Token(b, at) == FDT_END_NODE || Token(b, at) == FDT_NOP then Search(b, at + 4, wanted)
    else if Token(b, at) == FDT_PROP then
      if at + 8 > |b| then Leaves else Search(b, Up(at + 12 + Token(b, at + 4)), wanted)
    else Hangs
  }

  /** Where it starts: at the structure block, or behind the name of the node `last`. */
  function StartOf(b: seq<u8>, last: Option<nat>): Option<nat> {
    match last
    case None => Some(0)
    case Some(node) => if NulAt(b, node + 4).None? then None else Some((NulAt(b, node + 4).value + 5) / 4 * 4)
  }

  method Find(b: seq<u8>, wanted: seq<u8>, last: Option<nat>) returns (r: Answer)
    requires |b| + U32 + 16 < WORD && NameOk(wanted)
    ensures r == if StartOf(b, last).None? then Leaves else Search(b, StartOf(b, last).value, wanted)
  {
    hide And, Token, PadLength, Compare, NulAt;
    var at := 0;
    if last.Some? {
      var c := SkipTo(b, last.value + 4);
      if c.None? {
        return Leaves;
      }
      ResumeAt(c.value + 1);
      at := And(c.value + 1 + 4, ALIGN_MASK);
    }
    ghost var want := Search(b, at, wanted);
    while at + 4 <= |b|
      invariant Search(b, at, wanted) == want
      decreases |b| - at
    {
      var current := Word32(b, at);
      if current == FDT_END {
        return Nothing;
      } else if current == FDT_BEGIN_NODE {
        var compared := CompareName(b, at + 4, wanted);
        if compared.Same? {
          return Found(at);
        } else if compared.Outside? {
          return Leaves;
        }
        var c := SkipTo(b, compared.c);
        if c.None? {
          return Leaves;
        }
        AlignUpIs(c.value + 1);
        at := AlignUp(c.value + 1);
      } else if current == FDT_END_NODE || current == FDT_NOP {
        at := at + 4;
      } else if current == FDT_PROP {
        if at + 8 > |b| {
          return Leaves;
        }
        var len := Word32(b, at + 4);
        TokenBound(b, at + 4);
        AlignUpIs(at + 12 + len);
        at := AlignUp(at + 12 + len);
      } else {
        return Hangs;
      }
    }
    r := Leaves;
  }

  lemma TokenBound(b: seq<u8>, at: nat)
    requires at + 4 <= |b|
    ensures Token(b, at) < U32
  {
    BeFour(b[at..at + 4]);
  }

  lemma ResumeAt(c: nat)
    requires c + 4 < WORD
    ensures And(c + 4, ALIGN_MASK) == (c + 4) / 4 * 4
  {
    Literals();
    AndClear(c + 4, 2, 64);
  }

  /** while (*c++), up to the NUL itself */
  method SkipTo(b: seq<u8>, from: nat) returns (c: Option<nat>)
    ensures c == NulAt(b, from)
  {
    var i := from;
    while i < |b| && b[i] != 0
      invariant NulAt(b, i) == NulAt(b, from)
      decreases |b| - i
    {
      i := i + 1;
    }
    c := if i < |b| then Some(i) else None;
  }

  method CompareName(b: seq<u8>, from: nat, wanted: seq<u8>) returns (r: Compared)
    ensures r == Compare(b, from, wanted)
  {
    var c, i := from, 0;
    while c < |b| && b[c] != 0 && b[c] != '@' as int && i < |wanted| && b[c] == wanted[i]
      invariant i <= |wanted| && Compare(b, c, wanted[i..]) == Compare(b, from, wanted)
      decreases |b| - c
    {
      assert wanted[i..][1..] == wanted[i + 1..];
      c, i := c + 1, i + 1;
    }
    if c >= |b| {
      return Outside;
    }
    r := if (b[c] == 0 || b[c] == '@' as int) && i == |wanted| then Same else Differs(c);
  }

  // ----- on serialised trees -----

  /** The comparison accepts exactly the names whose part before '@' is the wanted one, and stays inside the name. */
  lemma {:induction false} CompareStem(b: seq<u8>, c: nat, name: seq<u8>, wanted: seq<u8>)
    requires c + |name| < |b| && b[c..c + |name|] == name && b[c + |name|] == 0 && NameOk(name)
    ensures var r := Compare(b, c, wanted);
      && (r.Same? <==> Stem(name) == wanted)
      && (!r.Same? ==> r.Differs? && r.c <= c + |name| && NulAt(b, r.c) == Some(c + |name|))
    decreases |name|
  {
    NameNul(b, c, name);
    if name != [] {
      assert b[c] == name[0];
      assert b[c + 1..c + 1 + |name[1..]|] == name[1..];
      if name[0] != '@' as int && wanted != [] && name[0] == wanted[0] {
        CompareStem(b, c + 1, name[1..], wanted[1..]);
        assert Stem(name) == [name[0]] + Stem(name[1..]);
        assert wanted == [wanted[0]] + wanted[1..];
      }
    }
  }

  lemma {:induction false} NameNul(b: seq<u8>, c: nat, name: seq<u8>)
    requires c + |name| < |b| && b[c..c + |name|] == name && b[c + |name|] == 0 && NameOk(name)
    ensures NulAt(b, c) == Some(c + |name|)
    decreases |name|
  {
    if name != [] {
      assert b[c] == name[0];
      assert b[c + 1..c + 1 + |name[1..]|] == name[1..];
      NameNul(b, c + 1, name[1..]);
    }
  }

  function AnswerOf(first: Option<nat>): Answer {
    match first
    case None => Nothing
    case Some(at) => Found(at)
  }

  lemma AtNode(b: seq<u8>, at: nat, stack: seq<Items>, post: seq<u8>, wanted: seq<u8>)
    requires Behind(b, at, stack, FDT_END, post) && stack != [] && stack[0].Sub? && at % 4 == 0
    ensures var r := Compare(b, at + 4, wanted);
      && (r.Same? <==> Stem(stack[0].name) == wanted)
      && (!r.Same? ==> r.Differs? && NulAt(b, r.c).Some? && Up(NulAt(b, r.c).value + 1) == at + |Open(stack[0].name)|)
    ensures at + |Open(stack[0].name)| <= |b| && (at + |Open(stack[0].name)|) % 4 == 0
    ensures Behind(b, at + |Open(stack[0].name)|, Inner(stack), FDT_END, post)
  {
    hide Token, SerStack, Stem, Compare, NulAt, Open;
    var name := stack[0].name;
    StepSub(b, at, stack, FDT_END, post);
    StepOpen(b, at, name, SerStack(Inner(stack), FDT_END) + post);
    CompareStem(b, at + 4, name, wanted);
    SamePadding(at, |name| + 1);
  }

  lemma SamePadding(at: nat, n: nat)
    requires at % 4 == 0
    ensures PadLength(at + 4 + n) == PadLength(n) && (at + 4 + n + PadLength(n)) % 4 == 0
  {
  }

  lemma AtProp(b: seq<u8>, at: nat, stack: seq<Items>, post: seq<u8>)
    requires Behind(b, at, stack, FDT_END, post) && stack != [] && stack[0].Prop? && at % 4 == 0
    ensures ItemsOk(stack[0]) && at + 8 <= |b|
    ensures var n := at + |PropBytes(stack[0].nameOff, stack[0].value)|;
      n == Up(at + 12 + Token(b, at + 4)) && n <= |b| && n % 4 == 0 && Behind(b, n, Rest(stack), FDT_END, post)
  {
    hide Token, SerStack;
    StepProp(b, at, stack, FDT_END, post);
    SamePadding(at, 8 + |stack[0].value|);
  }

  /** In a serialised tree the search ends with the first node of that stem in document order, or nothing. */
  lemma {:induction false} SearchTree(b: seq<u8>, at: nat, stack: seq<Items>, post: seq<u8>, wanted: seq<u8>)
    requires Behind(b, at, stack, FDT_END, post) && stack != [] && at % 4 == 0
    ensures forall i :: 0 <= i < |stack| ==> ItemsOk(stack[i])
    ensures Search(b, at, wanted) == AnswerOf(FirstNodeIn(stack, at, wanted))
    decreases |b| - at
  {
    hide Token, Open, SerStack, PropBytes, Stem, FirstNode, FirstNodeIn, Behind, Compare, Up, NulAt;
    BehindItems(b, at, stack, FDT_END, post);
    NextToken(b, at, stack, FDT_END, post);
    FindStep(stack, at, wanted);
    match stack[0]
    case Close =>
      if |stack| > 1 {
        StepClose(b, at, stack, FDT_END, post);
        SearchTree(b, at + 4, stack[1..], post, wanted);
      }
    case Nop(_) =>
      StepNop(b, at, stack, FDT_END, post);
      SearchTree(b, at + 4, Rest(stack), post, wanted);
    case Prop(nameOff, value, _) =>
      AtProp(b, at, stack, post);
      SearchTree(b, at + |PropBytes(nameOff, value)|, Rest(stack), post, wanted);
    case Sub(name, _, _) =>
      AtNode(b, at, stack, post, wanted);
      if Stem(name) != wanted {
        SearchTree(b, at + |Open(name)|, Inner(stack), post, wanted);
      }
  }

  /** Behind a node's name the search resumes at the first item, or one word into it when the name fills whole words. */
  lemma Resumed(b: seq<u8>, last: nat, name: seq<u8>, t: seq<u8>)
    requires last % 4 == 0 && last <= |b| && b[last..] == Open(name) + t && NameOk(name)
    ensures StartOf(b, Some(last)) == Some(last + |Open(name)| + (if (|name| + 1) % 4 == 0 then 4 else 0))
  {
    hide Open;
    StepOpen(b, last, name, t);
    NameNul(b, last + 4, name);
    var q, r := (|name| + 1) / 4, (|name| + 1) % 4;
    DivModUnique(last + |name| + 9, 4, last / 4 + q + 2, r);
  }

  /**
   * One word into the first item, with more behind it. Of a NOP or an END_NODE nothing else is lost. In front of a node
   * the search hangs. In front of a property it takes the property's length for a token: it hangs for all lengths but
   * 1, 2, 3, 4 and 9, and finds nothing for 9. For lengths 1 to 4 it goes on into the property, and what it finds
   * depends on the bytes there.
   */
  lemma SkippedWord(b: seq<u8>, pos: nat, stack: seq<Items>, post: seq<u8>, wanted: seq<u8>)
    requires Behind(b, pos, stack, FDT_END, post) && |stack| > 1 && pos % 4 == 0
    ensures forall i :: 0 <= i < |stack| ==> ItemsOk(stack[i])
    ensures var right, r := AnswerOf(FirstNodeIn(stack, pos, wanted)), Search(b, pos + 4, wanted);
      match stack[0]
      case Close => r == right
      case Nop(_) => r == right
      case Sub(_, _, _) => r == Hangs != right
      case Prop(_, value, _) =>
        && (|value| !in {1, 2, 3, 4, 9} ==> r == Hangs != right)
        && (|value| == 9 ==> r == Nothing && (r == right <==> FirstNodeIn(stack, pos, wanted).None?))
  {
    hide SerStack, Token, FirstNodeIn, Compare, PropBytes, Open;
    BehindItems(b, pos, stack, FDT_END, post);
    FindStep(stack, pos, wanted);
    match stack[0]
    case Close =>
      StepClose(b, pos, stack, FDT_END, post);
      SearchTree(b, pos + 4, stack[1..], post, wanted);
    case Nop(_) =>
      StepNop(b, pos, stack, FDT_END, post);
      SearchTree(b, pos + 4, Rest(stack), post, wanted);
    case Prop(_, _, _) =>
      StepProp(b, pos, stack, FDT_END, post);
    case Sub(_, _, _) =>
      StepSub(b, pos, stack, FDT_END, post);
      NameWord(b, pos, stack[0].name, SerStack(Inner(stack), FDT_END) + post);
  }

  /** A property whose length, name offset and value read as NOPs is skipped without harm, too. */
  lemma SkippedNops(b: seq<u8>, pos: nat, rest: Items, outer: seq<Items>, post: seq<u8>, wanted: seq<u8>)
    requires Behind(b, pos, [Prop(FDT_NOP, Tok(FDT_NOP), rest)] + outer, FDT_END, post) && pos % 4 == 0
    ensures ItemsOk(rest) && forall i :: 0 <= i < |outer| ==> ItemsOk(outer[i])
    ensures Search(b, pos + 4, wanted) == AnswerOf(FirstNodeIn([Prop(FDT_NOP, Tok(FDT_NOP), rest)] + outer, pos, wanted))
  {
    hide FirstNodeIn, Tok, SerStack;
    var stack, nops := [Prop(FDT_NOP, Tok(FDT_NOP), rest)] + outer, [Nop(Nop(Nop(rest)))] + outer;
    assert stack[0] == Prop(FDT_NOP, Tok(FDT_NOP), rest) && stack[1..] == outer && Rest(stack) == [rest] + outer;
    assert nops[0] == Nop(Nop(Nop(rest))) && nops[1..] == outer;
    BehindItems(b, pos, stack, FDT_END, post);
    assert ItemsOk(stack[0]) && forall i :: 0 <= i < |outer| ==> stack[i + 1] == outer[i];
    NopsBehind(b, pos, rest, outer, post);
    SearchTree(b, pos + 4, nops, post, wanted);
    FindStep(stack, pos, wanted);
    ThreeNops(rest, outer, pos + 4, wanted);
  }

  lemma ThreeNops(rest: Items, outer: seq<Items>, at: nat, wanted: seq<u8>)
    requires ItemsOk(rest) && forall i :: 0 <= i < |outer| ==> ItemsOk(outer[i])
    ensures forall i :: 0 <= i < |outer| + 1 ==> ItemsOk(([Nop(Nop(Nop(rest)))] + outer)[i]) && ItemsOk(([rest] + outer)[i])
    ensures FirstNodeIn([Nop(Nop(Nop(rest)))] + outer, at, wanted) == FirstNodeIn([rest] + outer, at + 12, wanted)
  {
    hide FirstNodeIn;
    var n1 := Nop(rest);
    var n2 := Nop(n1);
    OneNop(n2, outer, at, wanted);
    OneNop(n1, outer, at + 4, wanted);
    OneNop(rest, outer, at + 8, wanted);
  }

  lemma OneNop(rest: Items, outer: seq<Items>, at: nat, wanted: seq<u8>)
    requires ItemsOk(rest) && forall i :: 0 <= i < |outer| ==> ItemsOk(outer[i])
    ensures forall i :: 0 <= i < |outer| + 1 ==> ItemsOk(([Nop(rest)] + outer)[i]) && ItemsOk(([rest] + outer)[i])
    ensures FirstNodeIn([Nop(rest)] + outer, at, wanted) == FirstNodeIn([rest] + outer, at + 4, wanted)
  {
    assert ([Nop(rest)] + outer)[1..] == outer && ([rest] + outer)[1..] == outer;
  }

  lemma NopsBehind(b: seq<u8>, pos: nat, rest: Items, outer: seq<Items>, post: seq<u8>)
    requires Behind(b, pos, [Prop(FDT_NOP, Tok(FDT_NOP), rest)] + outer, FDT_END, post)
    requires ItemsOk(rest) && forall i :: 0 <= i < |outer| ==> ItemsOk(outer[i])
    ensures Behind(b, pos + 4, [Nop(Nop(Nop(rest)))] + outer, FDT_END, post)
  {
    hide Tok, Behind;
    var stack, w := [Prop(FDT_NOP, Tok(FDT_NOP), rest)] + outer, Tok(FDT_NOP);
    assert stack[0] == Prop(FDT_NOP, w, rest) && Rest(stack) == [rest] + outer;
    StepProp(b, pos, stack, FDT_END, post);
    PropWordBytes(b, pos, stack, post);
    NopBefore(b, pos + 12, rest, outer, post);
    NopBefore(b, pos + 8, Nop(rest), outer, post);
    NopBefore(b, pos + 4, Nop(Nop(rest)), outer, post);
  }

  lemma PropWordBytes(b: seq<u8>, pos: nat, stack: seq<Items>, post: seq<u8>)
    requires Behind(b, pos, stack, FDT_END, post) && stack != [] && stack[0].Prop?
    requires stack[0].nameOff == FDT_NOP && stack[0].value == Tok(FDT_NOP)
    ensures pos + 16 <= |b| && |PropBytes(FDT_NOP, Tok(FDT_NOP))| == 16
    ensures b[pos + 4..pos + 8] == b[pos + 8..pos + 12] == b[pos + 12..pos + 16] == Tok(FDT_NOP)
  {
    hide Tok, SerStack;
    var w := Tok(FDT_NOP);
    var p := PropBytes(FDT_NOP, w);
    Peel(stack, stack[0].rest, FDT_END, p);
    After(b, pos, p, SerStack([stack[0].rest] + stack[1..], FDT_END) + post);
    assert Padding(|w|) == [] && p == Tok(FDT_PROP) + (w + (w + w));
    assert b[pos + 4..pos + 8] == b[pos..pos + 16][4..8] == w;
    assert b[pos + 8..pos + 12] == b[pos..pos + 16][8..12] == w;
    assert b[pos + 12..pos + 16] == b[pos..pos + 16][12..16] == w;
  }

  /** A NOP word in front of what is left. */
  lemma NopBefore(b: seq<u8>, pos: nat, rest: Items, outer: seq<Items>, post: seq<u8>)
    requires pos + 4 <= |b| && b[pos..pos + 4] == Tok(FDT_NOP) && Behind(b, pos + 4, [rest] + outer, FDT_END, post)
    requires ItemsOk(rest) && forall i :: 0 <= i < |outer| ==> ItemsOk(outer[i])
    ensures Behind(b, pos, [Nop(rest)] + outer, FDT_END, post)
  {
    hide Tok, SerStack;
    var stack := [Nop(rest)] + outer;
    assert stack[1..] == outer;
    Peel(stack, rest, FDT_END, Tok(FDT_NOP));
    assert b[pos..] == b[pos..pos + 4] + b[pos + 4..];
  }

  /** The first word of a padded name is 0 or has a nonzero first byte. */
  lemma NameWord(b: seq<u8>, pos: nat, name: seq<u8>, t: seq<u8>)
    requires pos <= |b| && b[pos..] == Open(name) + t && NameOk(name)
    ensures pos + 8 <= |b| && (Token(b, pos + 4) == 0 || Token(b, pos + 4) >= 0x100_0000)
  {
    hide BeWord;
    StepOpen(b, pos, name, t);
    After(b, pos, Open(name), t);
    var w := b[pos + 4..pos + 8];
    BeFour(w);
    assert w == Open(name)[4..8] by {
      assert b[pos..pos + |Open(name)|][4..8] == w;
    }
    if name == [] {
      assert w == [0, 0, 0, 0];
    } else {
      assert w[0] == name[0];
    }
  }

  /** A tree on which the resumed search says that there is no such node, although the next node has the name. */
  function Misled(): Items {
    Sub([97, 98, 99], Prop(0, [0, 0, 0, 0, 0, 0, 0, 0, 0], Sub([120], Close, Close)), Close)
  }

  lemma ResumeLosesNode()
    ensures ItemsOk(Misled()) && var b := Ser(Misled(), FDT_END); var start := [Misled().body, Misled().rest];
      && StartOf(b, Some(0)) == Some(12) && Search(b, 12, [120]) == Nothing
      && Behind(b, 8, start, FDT_END, []) && FirstNodeIn(start, 8, [120]).Some?
  {
    hide Tok, Search;
    var b, start := Ser(Misled(), FDT_END), [Misled().body, Misled().rest];
    assert start[1..] == [Misled().rest];
    assert SerStack(start, FDT_END) == Ser(start[0], FDT_END_NODE) + Ser(start[1], FDT_END);
    assert b == Open([97, 98, 99]) + SerStack(start, FDT_END);
    Resumed(b, 0, [97, 98, 99], SerStack(start, FDT_END));
    SkippedWord(b, 8, start, [], [120]);
    assert Stem([120]) == [120];
  }

  /** The search goes on behind the first item, unless that is the node. */
  lemma FindStep(stack: seq<Items>, at: nat, wanted: seq<u8>)
    requires stack != [] && forall i :: 0 <= i < |stack| ==> ItemsOk(stack[i])
    ensures match stack[0] {
      case Close => FirstNodeIn(stack, at, wanted) == if |stack| == 1 then None else FirstNodeIn(stack[1..], at + 4, wanted)
      case Nop(rest) => FirstNodeIn(stack, at, wanted) == FirstNodeIn(Rest(stack), at + 4, wanted)
      case Prop(nameOff, value, rest) =>
        FirstNodeIn(stack, at, wanted) == FirstNodeIn(Rest(stack), at + |PropBytes(nameOff, value)|, wanted)
      case Sub(name, body, rest) => FirstNodeIn(stack, at, wanted) ==
        if Stem(name) == wanted then Some(at) else FirstNodeIn(Inner(stack), at + |Open(name)|, wanted) }
  {
    hide Stem, Open, PropBytes, Tok;
    match stack[0]
    case Close =>
    case Nop(rest) => assert Rest(stack)[1..] == stack[1..];
    case Prop(nameOff, value, rest) => assert Rest(stack)[1..] == stack[1..];
    case Sub(name, body, rest) =>
      assert Inner(stack)[1..] == [rest] + stack[1..];
      assert Inner(stack)[1..][1..] == stack[1..];
      assert FirstNodeIn([rest] + stack[1..], at + |Open(name)| + |Ser(body, FDT_END_NODE)|, wanted) ==
        (var here := FirstNode(rest, at + |Open(name)| + |Ser(body, FDT_END_NODE)|, wanted);
         if here.Some? then here
         else FirstNodeIn(stack[1..], at + |Open(name)| + |Ser(body, FDT_END_NODE)| + |Ser(rest, FDT_END_NODE)|, wanted));
  }
}
