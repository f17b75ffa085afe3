/** What the printed process tree tells: a reader of its lines, written for the bytes alone, recovers the tree. */
module ProcRead {
  import opened Bytes
  import opened ProcSnapshot
  import opened ProcPrint

  // ---- reading ----

  datatype Mark = NoMark | Middle | Last

  /** One line: for each indentation whether it is blank (no line down), the mark, the name and the pid. */
  datatype Line = Line(blank: seq<bool>, mark: Mark, name: seq<byte>, pid: int)

  /** Where the first line feed stands, |t| when there is none. */
  function Feed(t: seq<byte>): (n: nat)
    ensures n <= |t| && (n < |t| ==> t[n] == 0x0A)
    ensures forall k :: 0 <= k < n ==> t[k] != 0x0A
  {
    if t == [] || t[0] == 0x0A then 0 else 1 + Feed(t[1..])
  }

  /** The lines, each ended by a line feed. */
  function Lines(t: seq<byte>): seq<seq<byte>>
    decreases |t|
  {
    if Feed(t) == |t| then [] else [t[..Feed(t)]] + Lines(t[Feed(t) + 1..])
  }

  /** A decimal number. */
  function ReadNat(s: seq<byte>): Option<nat> {
    if s == [] || !(48 <= s[|s| - 1] <= 57) then None
    else if |s| == 1 then Some(s[0] - 48)
    else match ReadNat(s[..|s| - 1])
         case None => None
         case Some(n) => Some(10 * n + s[|s| - 1] - 48)
  }

  /** The same with a '-' before it. */
  function ReadInt(s: seq<byte>): Option<int> {
    if s != [] && s[0] == 0x2D then
      match ReadNat(s[1..])
      case None => None
      case Some(n) =>
        var m: int := n;
        Some(-m)
    else
      match ReadNat(s)
      case None => None
      case Some(n) => Some(n)
  }

  /** Where the last '(' stands, -1 when there is none. */
  function Paren(s: seq<byte>): (k: int)
    ensures -1 <= k < |s|
  {
    if s == [] then -1
    else if s[|s| - 1] == 0x28 then |s| - 1
    else Paren(s[..|s| - 1])
  }

  /** "name(pid)", where the name may hold parentheses. */
  function ReadTag(s: seq<byte>, mark: Mark): Option<Line> {
    if s == [] || s[|s| - 1] != 0x29 then None
    else
      var k := Paren(s[..|s| - 1]);
      if k < 0 then None
      else match ReadInt(s[k + 1..|s| - 1])
           case None => None
           case Some(pid) => Some(Line([], mark, s[..k], pid))
  }

  function Indented(b: bool, line: Option<Line>): Option<Line> {
    match line
    case None => None
    case Some(l) => Some(l.(blank := [b] + l.blank))
  }

  /** A line below the first: "│  " or three blanks for each level, then "├─" or "└─", then the name and the pid. */
  function ReadBranch(s: seq<byte>): Option<Line>
    decreases |s|
  {
    if |s| >= 5 && s[..5] == [0xE2, 0x94, 0x82, 0x20, 0x20] then Indented(false, ReadBranch(s[5..]))
    else if |s| >= 3 && s[..3] == [0x20, 0x20, 0x20] then Indented(true, ReadBranch(s[3..]))
    else if |s| >= 6 && s[..6] == [0xE2, 0x94, 0x9C, 0xE2, 0x94, 0x80] then ReadTag(s[6..], Middle)
    else if |s| >= 6 && s[..6] == [0xE2, 0x94, 0x94, 0xE2, 0x94, 0x80] then ReadTag(s[6..], Last)
    else None
  }

  /** The line with number `n`; the first has neither indentation nor mark. */
  function ReadLine(n: nat, s: seq<byte>): Option<Line> {
    if n == 0 then ReadTag(s, NoMark) else ReadBranch(s)
  }

  // ---- numbers and names ----

  lemma {:induction false} DigitsRead(n: nat)
    ensures ReadNat(Digits(n)) == Some(n)
    ensures forall k :: 0 <= k < |Digits(n)| ==> 48 <= Digits(n)[k] <= 57
  {
    if n >= 10 {
      DigitsRead(n / 10);
      assert Digits(n)[..|Digits(n)| - 1] == Digits(n / 10);
    }
  }

  /** The digits of a pid, with its sign. */
  function Number(pid: int): seq<byte> {
    if pid < 0 then [0x2D] + Digits(-pid) else Digits(pid)
  }

  lemma NumberReads(pid: int)
    ensures ReadInt(Number(pid)) == Some(pid)
    ensures forall k :: 0 <= k < |Number(pid)| ==> Number(pid)[k] != 0x28 && Number(pid)[k] != 0x0A
  {
    hide Digits, ReadNat;
    DigitsRead(if pid < 0 then -pid else pid);
    if pid < 0 {
      assert Number(pid)[1..] == Digits(-pid);
    }
  }

  lemma {:induction false} ParenFound(name: seq<byte>, num: seq<byte>)
    requires 0x28 !in num
    ensures Paren(name + [0x28] + num) == |name|
    decreases |num|
  {
    var s := name + [0x28] + num;
    if num == [] {
      assert s[|s| - 1] == 0x28;
    } else {
      var m := |num| - 1;
      assert s[|s| - 1] == num[m] && num[m] in num;
      assert s[..|s| - 1] == name + [0x28] + num[..m];
      ParenFound(name, num[..m]);
    }
  }

  lemma TagReads(p: Proc, mark: Mark)
    ensures Tag(p)[|Tag(p)| - 1] == 0x0A
    ensures ReadTag(Tag(p)[..|Tag(p)| - 1], mark) == Some(Line([], mark, p.comm, p.pid))
    ensures 0x0A in Tag(p)[..|Tag(p)| - 1] <==> 0x0A in p.comm
  {
    hide Digits, ReadInt, Paren;
    var num := Number(p.pid);
    NumberReads(p.pid);
    ParenFound(p.comm, num);
    var s := Tag(p)[..|Tag(p)| - 1];
    assert s == p.comm + [0x28] + num + [0x29];
    assert s[..|s| - 1] == p.comm + [0x28] + num;
    assert s[..|p.comm|] == p.comm && s[|p.comm| + 1..|s| - 1] == num;
    forall b | b in num
      ensures b != 0x0A
    {
    }
  }

  // ---- one line ----

  /** No later process of the list has the same parent as `x`. */
  ghost predicate Youngest(ns: seq<Proc>, x: nat)
    requires x < |ns|
  {
    forall y :: x < y < |ns| ==> ParentOf(ns, y) != ParentOf(ns, x)
  }

  /** What the line of process `x`, `depth` levels below the root, reads as. The ancestors between it and the root, the
      nearest 64 of them, indent it, the farthest first: blank where no later sibling's line comes down. */
  ghost predicate ReadsAs(ns: seq<Proc>, root: nat, x: nat, depth: nat, line: Option<Line>)
    requires x < |ns|
  {
    && line.Some? && line.value.name == ns[x].comm && line.value.pid == ns[x].pid
    && if x == root then line.value.mark == NoMark && line.value.blank == []
       else
         var blank := line.value.blank;
         && line.value.mark == (if Youngest(ns, x) then Last else Middle)
         && |blank| == (if depth <= 64 then depth - 1 else 64)
         && forall k: nat, y: nat :: 1 <= k <= |blank| && y < |ns| && Up(ns, x, k, y) ==>
              blank[|blank| - k] == Youngest(ns, y)
  }

  /** The text of one line. */
  ghost function NodeText(ns: seq<Proc>, root: nat, x: nat): seq<byte>
    requires x < |ns|
  {
    Concat(NodePieces(ns, root, x))
  }

  lemma {:induction false} ConcatBoth(a: seq<seq<byte>>, b: seq<seq<byte>>)
    ensures Concat(a + b) == Concat(a) + Concat(b)
    decreases |b|
  {
    if b == [] {
      assert a + b == a;
    } else {
      var n := |b| - 1;
      assert (a + b)[..|a + b| - 1] == a + b[..n];
      ConcatBoth(a, b[..n]);
    }
  }

  lemma ConcatOne(p: seq<byte>)
    ensures Concat([p]) == p
  {
    ConcatAppend([], p);
    assert [] + [p] == [p];
  }

  /** The indentations of a chain of ancestors, farthest first. */
  ghost function Blanks(ns: seq<Proc>, chain: seq<nat>): (b: seq<bool>)
    requires forall k :: 0 <= k < |chain| ==> chain[k] < |ns|
    ensures |b| == |chain|
    ensures forall k :: 0 <= k < |chain| ==> b[|chain| - 1 - k] == IsLast(ns, chain[k])
  {
    if chain == [] then [] else Blanks(ns, chain[1..]) + [IsLast(ns, chain[0])]
  }

  lemma {:induction false} IndentReads(ns: seq<Proc>, chain: seq<nat>, rest: seq<byte>)
    requires forall k :: 0 <= k < |chain| ==> chain[k] < |ns|
    requires ReadBranch(rest).Some?
    ensures ReadBranch(Concat(IndentPieces(ns, chain)) + rest)
            == Some(ReadBranch(rest).value.(blank := Blanks(ns, chain) + ReadBranch(rest).value.blank))
  {
    hide IsLast, ReadBranch, Concat, IndentPieces, Blanks;
    if chain == [] {
      NoChain(ns, rest, ReadBranch(rest).value.blank);
    } else {
      var b := IsLast(ns, chain[0]);
      OneIndent(b, rest);
      ChainFirst(ns, chain, rest, ReadBranch(rest).value.blank);
      IndentReads(ns, chain[1..], (if b then BLANK else BAR) + rest);
    }
  }

  lemma NoChain(ns: seq<Proc>, rest: seq<byte>, blank: seq<bool>)
    ensures Concat(IndentPieces(ns, [])) + rest == rest && Blanks(ns, []) + blank == blank
  {
  }

  lemma ChainFirst(ns: seq<Proc>, chain: seq<nat>, rest: seq<byte>, blank: seq<bool>)
    requires chain != [] && forall k :: 0 <= k < |chain| ==> chain[k] < |ns|
    ensures var b := IsLast(ns, chain[0]);
            && Concat(IndentPieces(ns, chain)) + rest
               == Concat(IndentPieces(ns, chain[1..])) + ((if b then BLANK else BAR) + rest)
            && Blanks(ns, chain) + blank == Blanks(ns, chain[1..]) + ([b] + blank)
  {
    hide IsLast, Concat;
    var piece := if IsLast(ns, chain[0]) then BLANK else BAR;
    IndentFirst(ns, chain);
    ConcatAppend(IndentPieces(ns, chain[1..]), piece);
    Associate(Concat(IndentPieces(ns, chain[1..])), piece, rest);
  }

  lemma Associate<T>(a: seq<T>, b: seq<T>, c: seq<T>)
    ensures a + b + c == a + (b + c)
  {
  }

  lemma OneIndent(b: bool, rest: seq<byte>)
    requires ReadBranch(rest).Some?
    ensures ReadBranch((if b then BLANK else BAR) + rest)
            == Some(ReadBranch(rest).value.(blank := [b] + ReadBranch(rest).value.blank))
  {
    hide ReadTag;
    var s := (if b then BLANK else BAR) + rest;
    if b {
      assert s[0] == 0x20 && s[..3] == BLANK && s[3..] == rest;
    } else {
      assert s[..5] == BAR && s[5..] == rest;
    }
  }

  lemma MarkReads(last: bool, s: seq<byte>)
    ensures ReadBranch((if last then ELBOW else TEE) + s) == ReadTag(s, if last then Last else Middle)
  {
    hide ReadTag;
    var t := (if last then ELBOW else TEE) + s;
    assert t[0] == 0xE2 && t[2] == (if last then 0x94 else 0x9C);
    assert t[..6] == (if last then ELBOW else TEE) && t[6..] == s;
  }

  lemma {:induction false} UpOne(ns: seq<Proc>, x: nat, k: nat, y: nat, z: nat)
    requires Up(ns, x, k, y) && Up(ns, x, k, z)
    ensures y == z
    decreases k
  {
    hide ParentOf;
    if k > 0 {
      UpOne(ns, ParentOf(ns, x).value, k - 1, y, z);
    }
  }

  lemma UpNext(ns: seq<Proc>, x: nat, k: nat, y: nat)
    requires x < |ns| && ParentOf(ns, x).Some? && Up(ns, ParentOf(ns, x).value, k, y)
    ensures Up(ns, x, k + 1, y)
  {
    hide ParentOf;
  }

  /** The ancestors that the walk collects are those the line is indented for. */
  lemma BlanksAre(ns: seq<Proc>, root: nat, x: nat, depth: nat)
    requires RootOk(ns, root) && x < |ns| && x != root && Up(ns, x, depth, root)
    ensures depth > 0 && ParentOf(ns, x).Some? && IsLast(ns, x) == Youngest(ns, x)
    ensures var chain := Chain(ns, root, ParentOf(ns, x).value, MAX_ANCESTORS);
            var blank := Blanks(ns, chain);
            && |blank| == (if depth <= MAX_ANCESTORS then depth - 1 else MAX_ANCESTORS)
            && forall k: nat, y: nat :: 1 <= k <= |blank| && y < |ns| && Up(ns, x, k, y) ==>
                 blank[|blank| - k] == Youngest(ns, y)
  {
    hide RootOk, Up, ParentOf, Chain, Blanks;
    OneUp(ns, root, x, depth);
    var q := ParentOf(ns, x).value;
    var chain := Chain(ns, root, q, MAX_ANCESTORS);
    ChainIsAncestry(ns, root, q, MAX_ANCESTORS, depth - 1);
    var blank := Blanks(ns, chain);
    forall k: nat, y: nat | 1 <= k <= |blank| && y < |ns| && Up(ns, x, k, y)
      ensures blank[|blank| - k] == Youngest(ns, y)
    {
      var c := chain[k - 1];
      assert blank[|chain| - 1 - (k - 1)] == IsLast(ns, c);
      UpNext(ns, x, k - 1, c);
      UpOne(ns, x, k, y, c);
      InnerHasParent(ns, root, c, depth - k);
    }
  }

  lemma InnerHasParent(ns: seq<Proc>, root: nat, c: nat, k: nat)
    requires RootOk(ns, root) && k > 0 && Up(ns, c, k, root)
    ensures c < |ns| && ParentOf(ns, c).Some?
  {
    hide ParentOf, RootOk;
  }

  lemma {:induction false} NoFeedInIndent(ns: seq<Proc>, chain: seq<nat>)
    requires forall k :: 0 <= k < |chain| ==> chain[k] < |ns|
    ensures 0x0A !in Concat(IndentPieces(ns, chain))
  {
    hide IsLast, Concat;
    if chain == [] {
      ConcatNone();
    } else {
      NoFeedInIndent(ns, chain[1..]);
      ConcatAppend(IndentPieces(ns, chain[1..]), if IsLast(ns, chain[0]) then BLANK else BAR);
    }
  }

  lemma ConcatNone()
    ensures Concat([]) == []
  {
  }

  /** One line without its line feed. */
  ghost function Body(ns: seq<Proc>, root: nat, x: nat): seq<byte>
    requires x < |ns|
  {
    var t := NodeText(ns, root, x);
    if t == [] then [] else t[..|t| - 1]
  }

  lemma BranchText(ns: seq<Proc>, root: nat, x: nat)
    requires x < |ns| && x != root && ParentOf(ns, x).Some?
    ensures var chain := Chain(ns, root, ParentOf(ns, x).value, MAX_ANCESTORS);
            NodeText(ns, root, x)
            == Concat(IndentPieces(ns, chain)) + ((if IsLast(ns, x) then ELBOW else TEE) + Tag(ns[x]))
  {
    hide ParentOf, IsLast, Chain, Tag, IndentPieces, Concat;
    var indent := IndentPieces(ns, Chain(ns, root, ParentOf(ns, x).value, MAX_ANCESTORS));
    var mark := if IsLast(ns, x) then ELBOW else TEE;
    ConcatAppend(indent, mark);
    ConcatAppend(indent + [mark], Tag(ns[x]));
    Associate(Concat(indent), mark, Tag(ns[x]));
  }

  /** A line reads as its node; it holds no line feed but the last exactly when the name holds none. */
  lemma NodeReads(ns: seq<Proc>, root: nat, x: nat, depth: nat, n: nat)
    requires RootOk(ns, root) && x < |ns| && Up(ns, x, depth, root) && (n == 0 <==> x == root)
    ensures NodeText(ns, root, x) == Body(ns, root, x) + [0x0A]
    ensures 0x0A in Body(ns, root, x) <==> 0x0A in ns[x].comm
    ensures ReadsAs(ns, root, x, depth, ReadLine(n, Body(ns, root, x)))
  {
    hide RootOk, Up, ParentOf, IsLast, Youngest, Chain, Tag, IndentPieces, Concat, ReadBranch, ReadTag, Blanks;
    var tag := Tag(ns[x]);
    TagReads(ns[x], NoMark);
    if x == root {
      ConcatOne(tag);
      assert tag == tag[..|tag| - 1] + [0x0A];
    } else {
      BranchReads(ns, root, x, depth);
    }
  }

  lemma BranchReads(ns: seq<Proc>, root: nat, x: nat, depth: nat)
    requires RootOk(ns, root) && x < |ns| && Up(ns, x, depth, root) && x != root
    ensures NodeText(ns, root, x) == Body(ns, root, x) + [0x0A]
    ensures 0x0A in Body(ns, root, x) <==> 0x0A in ns[x].comm
    ensures ReadsAs(ns, root, x, depth, ReadBranch(Body(ns, root, x)))
  {
    hide RootOk, Up, ParentOf, IsLast, Youngest, Chain, Tag, IndentPieces, Concat, ReadBranch, ReadTag, Blanks,
         NodeText;
    var tag, last := Tag(ns[x]), IsLast(ns, x);
    var mark := if last then ELBOW else TEE;
    TagReads(ns[x], if last then Last else Middle);
    BlanksAre(ns, root, x, depth);
    BranchText(ns, root, x);
    var chain := Chain(ns, root, ParentOf(ns, x).value, MAX_ANCESTORS);
    var indent, inner := Concat(IndentPieces(ns, chain)), tag[..|tag| - 1];
    assert tag == inner + [0x0A];
    NoFeedInIndent(ns, chain);
    MarkReads(last, inner);
    IndentReads(ns, chain, mark + inner);
    assert NodeText(ns, root, x) == (indent + (mark + inner)) + [0x0A];
    assert Body(ns, root, x) == indent + (mark + inner);
    assert Blanks(ns, chain) + [] == Blanks(ns, chain);
  }

  // ---- the whole text ----

  lemma FeedIs(a: seq<byte>, b: seq<byte>)
    requires 0x0A !in a
    ensures Feed(a + [0x0A] + b) == |a|
  {
    hide Feed;
    var t := a + [0x0A] + b;
    assert t[|a|] == 0x0A;
    forall k | 0 <= k < |a|
      ensures t[k] != 0x0A
    {
      assert t[k] in a;
    }
  }

  lemma LinesOne(a: seq<byte>, b: seq<byte>)
    requires 0x0A !in a
    ensures Lines(a + [0x0A] + b) == [a] + Lines(b)
  {
    hide Feed;
    var t := a + [0x0A] + b;
    FeedIs(a, b);
    assert t[..|a|] == a && t[|a| + 1..] == b;
  }

  /** The lines of a text that is ended by a line feed, and of what follows. */
  lemma {:induction false} LinesBoth(a: seq<byte>, b: seq<byte>)
    ensures Lines(a + [0x0A] + b) == Lines(a + [0x0A]) + Lines(b)
    ensures |Lines(a + [0x0A])| >= 1
    ensures |Lines(a + [0x0A])| == 1 <==> 0x0A !in a
    decreases |a|
  {
    hide Feed, Lines;
    var f := Feed(a);
    LinesNone();
    if f == |a| {
      assert 0x0A !in a;
      LinesOne(a, b);
      LinesOne(a, []);
      assert a + [0x0A] + [] == a + [0x0A];
      assert [a] + [] == [a];
    } else {
      var head, tail := a[..f], a[f + 1..];
      assert 0x0A !in head && a[f] == 0x0A;
      assert a + [0x0A] == head + [0x0A] + (tail + [0x0A]);
      assert a + [0x0A] + b == head + [0x0A] + (tail + [0x0A] + b);
      LinesOne(head, tail + [0x0A]);
      LinesOne(head, tail + [0x0A] + b);
      LinesBoth(tail, b);
    }
  }

  lemma LinesNone()
    ensures Lines([]) == []
  {
  }

  ghost function TextOf(ns: seq<Proc>, root: nat, s: seq<nat>): seq<byte>
    requires forall k :: 0 <= k < |s| ==> s[k] < |ns|
  {
    Concat(Pieces(ns, root, s))
  }

  lemma TextMore(ns: seq<Proc>, root: nat, s: seq<nat>)
    requires s != [] && forall k :: 0 <= k < |s| ==> s[k] < |ns|
    ensures TextOf(ns, root, s) == TextOf(ns, root, s[..|s| - 1]) + NodeText(ns, root, s[|s| - 1])
  {
    hide Concat, NodePieces;
    ConcatBoth(Pieces(ns, root, s[..|s| - 1]), NodePieces(ns, root, s[|s| - 1]));
  }

  /** The line feeds of a line's text are the one at its end and those of the name. */
  ghost predicate LineEnds(ns: seq<Proc>, root: nat, x: nat)
    requires x < |ns|
  {
    && NodeText(ns, root, x) == Body(ns, root, x) + [0x0A]
    && (0x0A in Body(ns, root, x) <==> 0x0A in ns[x].comm)
  }

  lemma {:induction false} LinesOfText(ns: seq<Proc>, root: nat, s: seq<nat>)
    requires forall k :: 0 <= k < |s| ==> s[k] < |ns| && LineEnds(ns, root, s[k])
    ensures Ended(TextOf(ns, root, s))
    ensures |Lines(TextOf(ns, root, s))| >= |s|
    ensures |Lines(TextOf(ns, root, s))| == |s| <==> forall k :: 0 <= k < |s| ==> 0x0A !in ns[s[k]].comm
    ensures |Lines(TextOf(ns, root, s))| == |s| ==>
              forall k :: 0 <= k < |s| ==> Lines(TextOf(ns, root, s))[k] == Body(ns, root, s[k])
    decreases |s|
  {
    hide Lines, TextOf, NodeText, Body;
    LinesNone();
    if s == [] {
      NoText(ns, root);
    } else {
      var n := |s| - 1;
      var x, body, t := s[n], Body(ns, root, s[n]), TextOf(ns, root, s[..n]);
      LinesOfText(ns, root, s[..n]);
      TextMore(ns, root, s);
      LastLine(t, body);
      assert TextOf(ns, root, s) == t + body + [0x0A];
      if |Lines(t)| == n && 0x0A !in ns[x].comm {
        forall k | 0 <= k < |s|
          ensures 0x0A !in ns[s[k]].comm && Lines(t + body + [0x0A])[k] == Body(ns, root, s[k])
        {
          if k < n {
            assert s[..n][k] == s[k];
          }
        }
      }
      assert forall k :: 0 <= k < n ==> s[..n][k] == s[k];
    }
  }

  lemma NoText(ns: seq<Proc>, root: nat)
    ensures TextOf(ns, root, []) == []
  {
  }

  predicate Ended(t: seq<byte>) {
    t == [] || t[|t| - 1] == 0x0A
  }

  /** One more line after a text that is empty or ended by a line feed. */
  lemma LastLine(t: seq<byte>, body: seq<byte>)
    requires Ended(t)
    ensures |Lines(t + body + [0x0A])| >= |Lines(t)| + 1
    ensures |Lines(t + body + [0x0A])| == |Lines(t)| + 1 <==> 0x0A !in body
    ensures 0x0A !in body ==> Lines(t + body + [0x0A]) == Lines(t) + [body]
  {
    hide Lines;
    LinesNone();
    LinesBoth(body, []);
    if 0x0A !in body {
      LinesOne(body, []);
      assert body + [0x0A] + [] == body + [0x0A];
      assert Lines(body + [0x0A]) == [body];
    }
    if t == [] {
      assert t + body + [0x0A] == body + [0x0A];
    } else {
      var a := t[..|t| - 1];
      assert t == a + [0x0A];
      LinesBoth(a, body + [0x0A]);
      assert t + body + [0x0A] == a + [0x0A] + (body + [0x0A]);
    }
  }

  /** Every line of the text, read back, is the node of the print order with that number. */
  ghost predicate ReadsBack(ns: seq<Proc>, root: nat, s: seq<nat>, level: seq<nat>, lines: seq<seq<byte>>) {
    && |lines| == |s| == |level|
    && forall a :: 0 <= a < |s| ==> s[a] < |ns| && ReadsAs(ns, root, s[a], level[a], ReadLine(a, lines[a]))
  }

  /** The printed tree can be read back, name by name, pid by pid, level by level, exactly when no printed name holds a
      line feed. */
  lemma ReadBack(ns: seq<Proc>, root: nat)
    requires RootOk(ns, root)
    ensures var (s, level) := PrintOrder(ns, root);
            && (forall k :: 0 <= k < |s| ==> s[k] < |ns|)
            && (ReadsBack(ns, root, s, level, Lines(FullText(ns, root)))
                <==> forall k :: 0 <= k < |s| ==> 0x0A !in ns[s[k]].comm)
  {
    hide RootOk, Up, PrintOrder, Lines, NodeText, Body, ReadsAs, ReadLine, Pieces, Concat, Bfs;
    var (s, level) := PrintOrder(ns, root);
    OrderFacts(ns, root, s, level);
    forall a | 0 <= a < |s|
      ensures LineEnds(ns, root, s[a]) && ReadsAs(ns, root, s[a], level[a], ReadLine(a, Body(ns, root, s[a])))
    {
      NodeReads(ns, root, s[a], level[a], a);
    }
    LinesOfText(ns, root, s);
    assert FullText(ns, root) == TextOf(ns, root, s);
  }

  lemma OrderFacts(ns: seq<Proc>, root: nat, s: seq<nat>, level: seq<nat>)
    requires RootOk(ns, root) && PrintOrder(ns, root) == (s, level)
    ensures |s| == |level|
    ensures forall a :: 0 <= a < |s| ==> s[a] < |ns| && Up(ns, s[a], level[a], root) && (a == 0 <==> s[a] == root)
  {
    hide RootOk, Up, PrintOrder, FromParents, KidsListed;
    assert Bfs(ns, root, s, |s|, level) && [root] <= s;
    assert s[0] == root;
  }

  lemma {:induction false} LinesOfPart(a: seq<byte>, b: seq<byte>)
    requires a <= b
    ensures Lines(a) <= Lines(b)
    decreases |a|
  {
    hide Feed;
    var f := Feed(a);
    if f < |a| {
      FeedStays(a, b);
      assert a[f + 1..] <= b[f + 1..];
      LinesOfPart(a[f + 1..], b[f + 1..]);
      assert a[..f] == b[..f];
    }
  }

  lemma FeedStays(a: seq<byte>, b: seq<byte>)
    requires a <= b && Feed(a) < |a|
    ensures Feed(b) == Feed(a)
  {
    hide Feed;
    var f := Feed(a);
    assert b[f] == a[f];
    forall k | 0 <= k < f
      ensures b[k] != 0x0A
    {
      assert a[k] == b[k];
    }
  }

  /** What the caller can read in the copy: the nodes of the print order, all of them unless the text and its
      NUL do not fit, and otherwise as many as have a whole line in the buffer. */
  method ReadSnapshot(ns: seq<Proc>, size: nat) returns (ret: int, out: seq<byte>)
    requires |ns| > 0 && size > 0 && RootOk(ns, RootOf(ns, |ns|))
    requires forall k :: 0 <= k < |ns| ==> 0x0A !in ns[k].comm
    ensures var root := RootOf(ns, |ns|);
            var (s, level) := PrintOrder(ns, root);
            && out != []
            && var lines := Lines(out[..|out| - 1]);
               && |lines| <= |s| == |level|
               && (ret == -90 <==> size <= |FullText(ns, root)| || 8192 <= |FullText(ns, root)|)
               && (ret != -90 ==> |lines| == |s| && ret == |out| - 1 && out[ret] == 0)
               && forall a :: 0 <= a < |lines| ==>
                    s[a] < |ns| && ReadsAs(ns, root, s[a], level[a], ReadLine(a, lines[a]))
  {
    hide RootOk, PrintOrder, Concat, Lines, ReadLine, ReadsAs, AllPieces, RootOf, CopiedText;
    ret, out := Snapshot(ns, size);
    CopyReads(ns, RootOf(ns, |ns|), BufSize(size), out);
  }

  lemma CopyReads(ns: seq<Proc>, root: nat, room: nat, out: seq<byte>)
    requires RootOk(ns, root) && room > 0 && forall k :: 0 <= k < |ns| ==> 0x0A !in ns[k].comm
    requires forall k :: 0 <= k < |AllPieces(ns, root)| ==> AllPieces(ns, root)[k] != [] && 0 !in AllPieces(ns, root)[k]
    requires out == CopiedText(AllPieces(ns, root), room)
    ensures var (s, level) := PrintOrder(ns, root);
            && out != []
            && var lines := Lines(out[..|out| - 1]);
               && |lines| <= |s| == |level|
               && (|FullText(ns, root)| < room ==>
                     |lines| == |s| && |FullText(ns, root)| == |out| - 1 && out[|out| - 1] == 0)
               && forall a :: 0 <= a < |lines| ==>
                    s[a] < |ns| && ReadsAs(ns, root, s[a], level[a], ReadLine(a, lines[a]))
  {
    hide RootOk, PrintOrder, Concat, Lines, ReadLine, ReadsAs, AllPieces, StopPiece;
    ReadBack(ns, root);
    CopyIsPrefix(AllPieces(ns, root), room);
    LinesOfPart(out[..|out| - 1], FullText(ns, root));
    if |FullText(ns, root)| < room {
      assert out[..|out| - 1] == FullText(ns, root);
    }
  }

  // ---- a call with its bytes ----

  // "init", "a", "c" and "b"
  const TREE: seq<Proc> := [Proc(1, 0, [105, 110, 105, 116]), Proc(12, 1, [97]), Proc(5, 12, [99]), Proc(3, 1, [98])]

  lemma TreeLinks()
    ensures ParentOf(TREE, 0) == None && ParentOf(TREE, 1) == Some(0)
    ensures ParentOf(TREE, 2) == Some(1) && ParentOf(TREE, 3) == Some(0)
    ensures RootOf(TREE, 4) == 0
  {
    ParentIs(TREE, 1, 0);
    ParentIs(TREE, 2, 1);
    ParentIs(TREE, 3, 0);
  }

  /** The children of `p` in a list of four. */
  lemma KidsOfFour(ns: seq<Proc>, p: nat)
    requires |ns| == 4
    ensures Children(ns, p) == OneIf(ns, 0, p) + OneIf(ns, 1, p) + OneIf(ns, 2, p) + OneIf(ns, 3, p)
  {
    hide ParentOf, Kids, OneIf;
    NoKids(ns, p);
    KidsNext(ns, p, 0);
    KidsNext(ns, p, 1);
    KidsNext(ns, p, 2);
    KidsNext(ns, p, 3);
  }

  lemma NoKids(ns: seq<Proc>, p: nat)
    ensures Kids(ns, p, 0) == []
  {
  }

  lemma KidsNext(ns: seq<Proc>, p: nat, n: nat)
    requires n < |ns|
    ensures Kids(ns, p, n + 1) == Kids(ns, p, n) + OneIf(ns, n, p)
  {
    hide ParentOf;
  }

  function OneIf(ns: seq<Proc>, i: nat, p: nat): seq<nat>
    requires i < |ns|
  {
    if ParentOf(ns, i) == Some(p) then [i] else []
  }

  lemma TreeKids()
    ensures Children(TREE, 0) == [1, 3] && Children(TREE, 1) == [2] && Children(TREE, 2) == []
    ensures Children(TREE, 3) == []
  {
    hide ParentOf, Children;
    TreeLinks();
    KidsOfFour(TREE, 0);
    KidsOfFour(TREE, 1);
    KidsOfFour(TREE, 2);
    KidsOfFour(TREE, 3);
  }

  lemma TreeMarks()
    ensures IsLast(TREE, 2) && IsLast(TREE, 3) && !IsLast(TREE, 1)
  {
    hide ParentOf;
    TreeLinks();
  }

  lemma OrderNext(ns: seq<Proc>, root: nat, s: seq<nat>, nd: nat, level: seq<nat>)
    requires RootOk(ns, root) && Bfs(ns, root, s, nd, level)
    ensures nd <= |s| == |level|
    ensures nd < |s| ==>
              var t, m := Queued(ns, s, nd), NextLevels(ns, s, nd, level);
              Bfs(ns, root, t, nd + 1, m) && Order(ns, root, s, nd, level) == Order(ns, root, t, nd + 1, m)
    ensures nd == |s| ==> Order(ns, root, s, nd, level) == (s, level)
  {
    hide RootOk, Bfs;
    BfsSizes(ns, root, s, nd, level);
    if nd < |s| {
      BfsStep(ns, root, s, nd, level);
    }
  }

  lemma TreeOrder()
    ensures RootOk(TREE, 0) && PrintOrder(TREE, 0) == ([0, 1, 3, 2], [0, 1, 1, 2])
  {
    hide RootOk, Bfs, Children, Order, Up;
    TreeLinks();
    InitIsARoot(TREE, 0);
    TreeKids();
    BfsStart(TREE, 0);
    OrderNext(TREE, 0, [0], 0, [0]);
    assert Queued(TREE, [0], 0) == [0, 1, 3] && NextLevels(TREE, [0], 0, [0]) == [0, 1, 1];
    OrderNext(TREE, 0, [0, 1, 3], 1, [0, 1, 1]);
    assert Queued(TREE, [0, 1, 3], 1) == [0, 1, 3, 2] && NextLevels(TREE, [0, 1, 3], 1, [0, 1, 1]) == [0, 1, 1, 2];
    OrderNext(TREE, 0, [0, 1, 3, 2], 2, [0, 1, 1, 2]);
    assert Queued(TREE, [0, 1, 3, 2], 2) == [0, 1, 3, 2];
    assert NextLevels(TREE, [0, 1, 3, 2], 2, [0, 1, 1, 2]) == [0, 1, 1, 2];
    OrderNext(TREE, 0, [0, 1, 3, 2], 3, [0, 1, 1, 2]);
    assert Queued(TREE, [0, 1, 3, 2], 3) == [0, 1, 3, 2];
    assert NextLevels(TREE, [0, 1, 3, 2], 3, [0, 1, 1, 2]) == [0, 1, 1, 2];
    OrderNext(TREE, 0, [0, 1, 3, 2], 4, [0, 1, 1, 2]);
  }

  /** "init(1)", "├─a(12)", "└─b(3)" and, under a, "│  └─c(5)". */
  function TreeText(): seq<byte> {
    [105, 110, 105, 116, 40, 49, 41, 10]
    + [0xE2, 0x94, 0x9C, 0xE2, 0x94, 0x80, 97, 40, 49, 50, 41, 10]
    + [0xE2, 0x94, 0x94, 0xE2, 0x94, 0x80, 98, 40, 51, 41, 10]
    + [0xE2, 0x94, 0x82, 0x20, 0x20, 0xE2, 0x94, 0x94, 0xE2, 0x94, 0x80, 99, 40, 53, 41, 10]
  }

  lemma TreeLines()
    ensures NodeText(TREE, 0, 0) == [105, 110, 105, 116, 40, 49, 41, 10]
    ensures NodeText(TREE, 0, 1) == [0xE2, 0x94, 0x9C, 0xE2, 0x94, 0x80, 97, 40, 49, 50, 41, 10]
    ensures NodeText(TREE, 0, 3) == [0xE2, 0x94, 0x94, 0xE2, 0x94, 0x80, 98, 40, 51, 41, 10]
  {
    hide ParentOf, IsLast, Concat, NodeText, Tag;
    TreeLinks();
    TreeMarks();
    TreeTags();
    RootText(TREE, 0);
    TopLevel(TREE, 0, 1);
    TopLevel(TREE, 0, 3);
  }

  /** A child of the root is not indented. */
  lemma TopLevel(ns: seq<Proc>, root: nat, x: nat)
    requires x < |ns| && root < |ns| && x != root && ParentOf(ns, x) == Some(root)
    ensures NodeText(ns, root, x) == (if IsLast(ns, x) then ELBOW else TEE) + Tag(ns[x])
  {
    hide ParentOf, IsLast, Concat, NodeText, Chain, IndentPieces, Tag;
    BranchText(ns, root, x);
    ChainEnd(ns, root, root, MAX_ANCESTORS);
    NoChain(ns, (if IsLast(ns, x) then ELBOW else TEE) + Tag(ns[x]), []);
  }

  /** A grandchild of the root is indented for its parent. */
  lemma SecondLevel(ns: seq<Proc>, root: nat, p: nat, x: nat)
    requires x < |ns| && root < |ns| && p < |ns| && x != root && p != root
    requires ParentOf(ns, x) == Some(p) && ParentOf(ns, p) == Some(root)
    ensures NodeText(ns, root, x)
            == (if IsLast(ns, p) then BLANK else BAR) + ((if IsLast(ns, x) then ELBOW else TEE) + Tag(ns[x]))
  {
    hide ParentOf, IsLast, Concat, NodeText, Chain, IndentPieces, Tag, Blanks;
    BranchText(ns, root, x);
    ChainStep(ns, root, p, MAX_ANCESTORS);
    ChainEnd(ns, root, root, MAX_ANCESTORS - 1);
    var rest := (if IsLast(ns, x) then ELBOW else TEE) + Tag(ns[x]);
    assert [p] + [] == [p] && [p][1..] == [];
    ChainFirst(ns, [p], rest, []);
    NoChain(ns, (if IsLast(ns, p) then BLANK else BAR) + rest, []);
  }

  lemma DeepLine()
    ensures NodeText(TREE, 0, 2)
            == [0xE2, 0x94, 0x82, 0x20, 0x20, 0xE2, 0x94, 0x94, 0xE2, 0x94, 0x80, 99, 40, 53, 41, 10]
  {
    hide ParentOf, IsLast, NodeText, Tag;
    TreeLinks();
    TreeMarks();
    TreeTags();
    SecondLevel(TREE, 0, 1, 2);
  }

  lemma RootText(ns: seq<Proc>, root: nat)
    requires root < |ns|
    ensures NodeText(ns, root, root) == Tag(ns[root])
  {
    hide Concat, Tag;
    ConcatOne(Tag(ns[root]));
  }

  lemma TreeTags()
    ensures Tag(TREE[0]) == [105, 110, 105, 116, 40, 49, 41, 10] && Tag(TREE[1]) == [97, 40, 49, 50, 41, 10]
    ensures Tag(TREE[2]) == [99, 40, 53, 41, 10] && Tag(TREE[3]) == [98, 40, 51, 41, 10]
  {
    assert Digits(12) == Digits(1) + [50];
  }

  lemma FourTexts(ns: seq<Proc>, root: nat, a: nat, b: nat, c: nat, d: nat)
    requires a < |ns| && b < |ns| && c < |ns| && d < |ns|
    ensures TextOf(ns, root, [a, b, c, d])
            == NodeText(ns, root, a) + NodeText(ns, root, b) + NodeText(ns, root, c) + NodeText(ns, root, d)
  {
    hide TextOf, NodeText;
    assert [a, b, c, d][..3] == [a, b, c] && [a, b, c][..2] == [a, b] && [a, b][..1] == [a] && [a][..0] == [];
    TextMore(ns, root, [a, b, c, d]);
    TextMore(ns, root, [a, b, c]);
    TextMore(ns, root, [a, b]);
    TextMore(ns, root, [a]);
    NoText(ns, root);
  }

  lemma TreePrints()
    ensures RootOk(TREE, 0) && FullText(TREE, 0) == TreeText()
  {
    hide RootOk, PrintOrder, ParentOf, NodeText, Concat, Pieces;
    TreeOrder();
    TreeLines();
    DeepLine();
    FourTexts(TREE, 0, 0, 1, 3, 2);
    assert FullText(TREE, 0) == TextOf(TREE, 0, [0, 1, 3, 2]);
  }

  /** The whole call on four processes: the text, a NUL, and the number of bytes before it. */
  method FourProcesses() returns (ret: int, out: seq<byte>)
    ensures ret == 47 && out == TreeText() + [0]
  {
    hide RootOk, AllPieces, Concat, RootOf;
    TreeLinks();
    TreePrints();
    ret, out := Snapshot(TREE, 8192);
  }

  // ---- names with line feeds ----

  // "a(1)", a line feed and "└─b"; "a" and "b"
  const ONE: seq<Proc> := [Proc(2, 0, [97, 40, 49, 41, 10, 0xE2, 0x94, 0x94, 0xE2, 0x94, 0x80, 98])]
  const TWO: seq<Proc> := [Proc(1, 0, [97]), Proc(2, 1, [98])]

  /** Why the names must hold no line feed: one process can print what two print. */
  lemma SameText()
    ensures RootOf(ONE, 1) == 0 && RootOk(ONE, 0) && RootOf(TWO, 2) == 0 && RootOk(TWO, 0)
    ensures FullText(ONE, 0) == FullText(TWO, 0)
            == [97, 40, 49, 41, 10, 0xE2, 0x94, 0x94, 0xE2, 0x94, 0x80, 98, 40, 50, 41, 10]
  {
    hide RootOk, NodeText, Concat, Pieces;
    OneText();
    TwoText();
  }

  lemma OneText()
    ensures RootOf(ONE, 1) == 0 && RootOk(ONE, 0)
    ensures FullText(ONE, 0) == [97, 40, 49, 41, 10, 0xE2, 0x94, 0x94, 0xE2, 0x94, 0x80, 98, 40, 50, 41, 10]
  {
    hide NodeText, Concat, Pieces, Up, PrintOrder, Tag;
    assert ParentOf(ONE, 0) == None;
    NoLoopAtTop(ONE, 0);
    OnlyRoot(ONE);
    RootText(ONE, 0);
    TagOfOne();
    OneLine(ONE, 0);
  }

  lemma NoLoopAtTop(ns: seq<Proc>, root: nat)
    requires root < |ns| && ParentOf(ns, root) == None
    ensures RootOk(ns, root)
  {
    hide ParentOf;
  }

  lemma OnlyRoot(ns: seq<Proc>)
    requires |ns| == 1 && RootOk(ns, 0)
    ensures PrintOrder(ns, 0).0 == [0]
  {
    hide RootOk, Up, ParentOf, PrintOrder;
    var (s, level) := PrintOrder(ns, 0);
    Bounded(ns, 0, s, |s|, level);
    assert s == [0];
  }

  lemma OneLine(ns: seq<Proc>, root: nat)
    requires root < |ns| && RootOk(ns, root) && PrintOrder(ns, root).0 == [root]
    ensures FullText(ns, root) == NodeText(ns, root, root)
  {
    hide RootOk, PrintOrder, NodeText, Concat, Pieces;
    TextMore(ns, root, [root]);
    assert [root][..0] == [];
    NoText(ns, root);
    assert FullText(ns, root) == TextOf(ns, root, [root]);
  }

  lemma TagOfOne()
    ensures Tag(ONE[0]) == [97, 40, 49, 41, 10, 0xE2, 0x94, 0x94, 0xE2, 0x94, 0x80, 98, 40, 50, 41, 10]
  {
  }

  lemma TwoText()
    ensures RootOf(TWO, 2) == 0 && RootOk(TWO, 0)
    ensures FullText(TWO, 0) == [97, 40, 49, 41, 10, 0xE2, 0x94, 0x94, 0xE2, 0x94, 0x80, 98, 40, 50, 41, 10]
  {
    hide RootOk, NodeText, Concat, Pieces, Up, PrintOrder, Tag, ParentOf, IsLast;
    TwoLinks();
    InitIsARoot(TWO, 0);
    TwoOrder();
    RootText(TWO, 0);
    TopLevel(TWO, 0, 1);
    assert [0, 1][..1] == [0] && [0][..0] == [];
    TextMore(TWO, 0, [0, 1]);
    TextMore(TWO, 0, [0]);
    NoText(TWO, 0);
    assert FullText(TWO, 0) == TextOf(TWO, 0, [0, 1]);
  }

  lemma TwoLinks()
    ensures ParentOf(TWO, 0) == None && ParentOf(TWO, 1) == Some(0) && IsLast(TWO, 1) && RootOf(TWO, 2) == 0
    ensures Tag(TWO[0]) == [97, 40, 49, 41, 10] && Tag(TWO[1]) == [98, 40, 50, 41, 10]
  {
    ParentIs(TWO, 1, 0);
  }

  lemma TwoOrder()
    requires RootOk(TWO, 0)
    ensures PrintOrder(TWO, 0).0 == [0, 1]
  {
    hide RootOk, Up, ParentOf, PrintOrder;
    TwoLinks();
    var (s, level) := PrintOrder(TWO, 0);
    Bounded(TWO, 0, s, |s|, level);
    assert s[..|s|] == s;
    assert 0 in s[..|s|];
    assert 1 in s;
    ZeroOne(s);
  }

  lemma ZeroOne(s: seq<nat>)
    requires |s| <= 2 && [0] <= s && 1 in s
    ensures s == [0, 1]
  {
  }
}
