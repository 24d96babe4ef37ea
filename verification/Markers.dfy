/** Removal of template marker blocks (stripMarkers in cmd/templateinit/init.go). */
module Markers {
  import opened Wrappers

  // ----- Lines and marker lines -----

  /** strings.SplitAfter(s, "\n"): every piece but the last ends with a newline. */
  function SplitAfter(s: string): (ls: seq<string>)
    ensures ls != []
  {
    if s == "" then [""]
    else
      var rest := SplitAfter(s[1..]);
      if s[0] == '\n' then ["\n"] + rest else [[s[0]] + rest[0]] + rest[1..]
  }

  function Concat(ls: seq<string>): string {
    if ls == [] then "" else ls[0] + Concat(ls[1..])
  }

  datatype Marker = Begin(name: string) | End(name: string)

  predicate HasPrefix(s: string, p: string) {
    |p| <= |s| && s[..|p|] == p
  }

  predicate RegexSpace(ch: char) {
    ch in {'\t', '\n', '\U{0C}', '\r', ' '}
  }

  predicate NameStart(ch: char) {
    'a' <= ch <= 'z'
  }

  predicate NameChar(ch: char) {
    'a' <= ch <= 'z' || '0' <= ch <= '9' || ch == '-'
  }

  function SkipSpaces(s: string): string {
    if s != "" && RegexSpace(s[0]) then SkipSpaces(s[1..]) else s
  }

  function TakeName(s: string): string {
    if s != "" && NameChar(s[0]) then [s[0]] + TakeName(s[1..]) else ""
  }

  /** \s+([a-z][a-z0-9-]*) at the start of s. */
  function NameAfter(s: string): Option<string> {
    if s == "" || !RegexSpace(s[0]) then None
    else
      var rest := SkipSpaces(s);
      if rest != "" && NameStart(rest[0]) then Some(TakeName(rest)) else None
  }

  const TEMPLATE := "template:"

  /** template:(begin|end)\s+([a-z][a-z0-9-]*) at the start of s. */
  function MatchHere(s: string): Option<Marker> {
    if !HasPrefix(s, TEMPLATE) then None
    else
      var rest := s[|TEMPLATE|..];
      if HasPrefix(rest, "begin") then
        (match NameAfter(rest[5..]) case Some(name) => Some(Begin(name)) case None => None)
      else if HasPrefix(rest, "end") then
        (match NameAfter(rest[3..]) case Some(name) => Some(End(name)) case None => None)
      else None
  }

  /** The leftmost match in a line. */
  function Kind(line: string): Option<Marker> {
    if line == "" then None
    else
      var here := MatchHere(line);
      if here.Some? then here else Kind(line[1..])
  }

  predicate MentionsTemplate(s: string) {
    exists i | 0 <= i <= |s| :: HasPrefix(s[i..], TEMPLATE)
  }

  // ----- What a marker line looks like -----

  predicate AllSpaces(s: string) {
    forall i | 0 <= i < |s| :: RegexSpace(s[i])
  }

  predicate AllNameChars(s: string) {
    forall i | 0 <= i < |s| :: NameChar(s[i])
  }

  predicate EndsName(rest: string) {
    rest == "" || !NameChar(rest[0])
  }

  function Word(m: Marker): string {
    if m.Begin? then "begin" else "end"
  }

  /** Spaces, then exactly the name, then something that does not prolong it. */
  ghost predicate Spaced(s: string, name: string) {
    exists sp, rest :: sp != "" && AllSpaces(sp) && name != "" && NameStart(name[0]) && AllNameChars(name) && EndsName(rest) && s == sp + (name + rest)
  }

  lemma {:induction false} SkipSpacesOver(sp: string, rest: string)
    requires AllSpaces(sp) && (rest == "" || !RegexSpace(rest[0]))
    ensures SkipSpaces(sp + rest) == rest
  {
    if sp == "" {
      assert sp + rest == rest;
    } else {
      assert (sp + rest)[1..] == sp[1..] + rest;
      SkipSpacesOver(sp[1..], rest);
    }
  }

  lemma {:induction false} TakeNameOf(name: string, rest: string)
    requires AllNameChars(name) && EndsName(rest)
    ensures TakeName(name + rest) == name
  {
    if name == "" {
      assert name + rest == rest;
    } else {
      assert (name + rest)[1..] == name[1..] + rest;
      TakeNameOf(name[1..], rest);
    }
  }

  lemma {:induction false} SpacesSplit(s: string) returns (sp: string)
    ensures AllSpaces(sp) && s == sp + SkipSpaces(s) && (s != "" && RegexSpace(s[0]) ==> sp != "")
  {
    sp := "";
    if s != "" && RegexSpace(s[0]) {
      sp := SpacesSplit(s[1..]);
      sp := [s[0]] + sp;
    }
  }

  lemma {:induction false} NameSplit(s: string) returns (rest: string)
    ensures AllNameChars(TakeName(s)) && EndsName(rest) && s == TakeName(s) + rest
  {
    rest := s;
    if s != "" && NameChar(s[0]) {
      rest := NameSplit(s[1..]);
    }
  }

  lemma NameAfterIsSpaced(s: string, name: string)
    ensures NameAfter(s) == Some(name) <==> Spaced(s, name)
  {
    if NameAfter(s) == Some(name) {
      var sp := SpacesSplit(s);
      var rest := NameSplit(SkipSpaces(s));
      assert s == sp + (name + rest);
    }
    if Spaced(s, name) {
      var sp, rest :| sp != "" && AllSpaces(sp) && name != "" && NameStart(name[0]) && AllNameChars(name) && EndsName(rest) && s == sp + (name + rest);
      assert (name + rest)[0] == name[0] && s[0] == sp[0];
      SkipSpacesOver(sp, name + rest);
      TakeNameOf(name, rest);
    }
  }

  /** A marker starts here exactly when the text reads template:begin or template:end, spaces and the name. */
  lemma MatchIsSyntax(s: string, m: Marker)
    ensures MatchHere(s) == Some(m) <==>
            HasPrefix(s, TEMPLATE) && HasPrefix(s[|TEMPLATE|..], Word(m)) && Spaced(s[|TEMPLATE| + |Word(m)|..], m.name)
  {
    if HasPrefix(s, TEMPLATE) {
      var rest := s[|TEMPLATE|..];
      if HasPrefix(rest, Word(m)) {
        assert rest[|Word(m)|..] == s[|TEMPLATE| + |Word(m)|..];
        assert rest[0] == Word(m)[0];
        NameAfterIsSpaced(rest[|Word(m)|..], m.name);
      }
    }
  }

  /** The marker of a line is the one that starts leftmost. */
  lemma {:induction false} KindIsLeftmost(line: string, m: Marker)
    ensures Kind(line) == Some(m) <==> exists i | 0 <= i < |line| :: StartsAt(line, i, m)
  {
    if line != "" {
      KindIsLeftmost(line[1..], m);
      assert line[0..] == line;
      forall i | 0 <= i < |line[1..]| ensures MatchHere(line).None? ==> (StartsAt(line[1..], i, m) <==> StartsAt(line, i + 1, m)) {
        assert forall j | 0 <= j <= i :: line[1..][j..] == line[j + 1..];
        assert forall j | 0 < j <= i + 1 :: line[j..] == line[1..][j - 1..];
      }
      if MatchHere(line).Some? {
        assert MatchHere(line) == Some(m) ==> StartsAt(line, 0, m);
      } else if exists i | 0 <= i < |line| :: StartsAt(line, i, m) {
        var i :| 0 <= i < |line| && StartsAt(line, i, m);
        assert i > 0 && StartsAt(line[1..], i - 1, m);
      }
    }
  }

  ghost predicate StartsAt(line: string, i: nat, m: Marker)
    requires i <= |line|
  {
    MatchHere(line[i..]) == Some(m) && forall j | 0 <= j < i :: MatchHere(line[j..]).None?
  }

  // ----- The one-pass algorithm -----

  datatype StripError = Unbalanced(line: nat, name: string) | Unterminated(name: string)

  type Stripped = Result<seq<string>, StripError>

  function Prepend(ls: seq<string>, r: Stripped): Stripped {
    match r case Ok(rest) => Ok(ls + rest) case Err(e) => Err(e)
  }

  /** The lines that remain from `lines`, read with the given open blocks (innermost last), number of
      open removed blocks and line number. */
  function Scan(lines: seq<string>, stack: seq<string>, skip: nat, at: nat, remove: set<string>, drop: bool): Stripped {
    if lines == [] then
      if stack == [] then Ok([]) else Err(Unterminated(stack[|stack| - 1]))
    else
      var kept := if drop then [] else [lines[0]];
      match Kind(lines[0])
      case None => Prepend(if skip == 0 then [lines[0]] else [], Scan(lines[1..], stack, skip, at + 1, remove, drop))
      case Some(Begin(name)) =>
        if name in remove || skip > 0 then Scan(lines[1..], stack + [name], skip + 1, at + 1, remove, drop)
        else Prepend(kept, Scan(lines[1..], stack + [name], skip, at + 1, remove, drop))
      case Some(End(name)) =>
        if stack == [] || stack[|stack| - 1] != name then Err(Unbalanced(at, name))
        else if skip > 0 then Scan(lines[1..], stack[..|stack| - 1], skip - 1, at + 1, remove, drop)
        else Prepend(kept, Scan(lines[1..], stack[..|stack| - 1], skip, at + 1, remove, drop))
  }

  /** The specification of the whole function on a file's content. */
  function Strip(content: string, remove: set<string>, drop: bool): Result<string, StripError> {
    match Scan(SplitAfter(content), [], 0, 1, remove, drop)
    case Ok(ls) => Ok(Concat(ls))
    case Err(e) => Err(e)
  }

  method StripMarkers(content: string, remove: set<string>, drop: bool) returns (r: Result<string, StripError>)
    ensures r == Strip(content, remove, drop)
  {
    if !MentionsTemplate(content) {
      NoTemplateNoChange(content, remove, drop);
      return Ok(content);
    }
    var lines := SplitAfter(content);
    var out: string, stack: seq<string>, skip := "", [], 0;
    ghost var kept: seq<string> := [];
    assert lines[0..] == lines;
    PrependTwice([], [], Scan(lines, [], 0, 1, remove, drop));
    for i := 0 to |lines|
      invariant out == Concat(kept) && skip >= 0
      invariant Scan(lines, [], 0, 1, remove, drop) == Prepend(kept, Scan(lines[i..], stack, skip, i + 1, remove, drop))
    {
      var line := lines[i];
      assert lines[i..][0] == line && lines[i..][1..] == lines[i + 1..];
      var m := Kind(line);
      var keep;
      if m.None? {
        keep := skip == 0;
      } else if m.value.Begin? {
        stack := stack + [m.value.name];
        keep := !(m.value.name in remove || skip > 0) && !drop;
        if m.value.name in remove || skip > 0 {
          skip := skip + 1;
        }
      } else {
        if |stack| == 0 || stack[|stack| - 1] != m.value.name {
          return Err(Unbalanced(i + 1, m.value.name));
        }
        stack := stack[..|stack| - 1];
        keep := skip == 0 && !drop;
        if skip > 0 {
          skip := skip - 1;
        }
      }
      var piece := if keep then [line] else [];
      PrependTwice(kept, piece, Scan(lines[i + 1..], stack, skip, i + 2, remove, drop));
      ConcatSnoc(kept, line);
      assert keep || kept + piece == kept;
      if keep {
        out := out + line;
      }
      kept := kept + piece;
    }
    if |stack| > 0 {
      return Err(Unterminated(stack[|stack| - 1]));
    }
    assert kept + [] == kept;
    return Ok(out);
  }

  lemma PrependTwice(a: seq<string>, b: seq<string>, r: Stripped)
    ensures Prepend(a, Prepend(b, r)) == Prepend(a + b, r)
    ensures Prepend([], r) == r
  {
    if r.Ok? {
      assert a + (b + r.value) == (a + b) + r.value;
      assert [] + r.value == r.value;
    }
  }

  lemma {:induction false} ConcatAppend(a: seq<string>, b: seq<string>)
    ensures Concat(a + b) == Concat(a) + Concat(b)
  {
    if a == [] {
      assert a + b == b;
    } else {
      ConcatAppend(a[1..], b);
      assert (a + b)[1..] == a[1..] + b;
    }
  }

  lemma ConcatSnoc(a: seq<string>, x: string)
    ensures Concat(a + [x]) == Concat(a) + x
  {
    ConcatAppend(a, [x]);
    assert Concat([x]) == x;
  }

  // ----- Without the word there is nothing to do -----

  lemma {:induction false} ConcatSplit(s: string)
    ensures Concat(SplitAfter(s)) == s
  {
    if s != "" {
      ConcatSplit(s[1..]);
      var rest := SplitAfter(s[1..]);
      assert s == [s[0]] + s[1..];
      if s[0] != '\n' {
        assert ([[s[0]] + rest[0]] + rest[1..])[1..] == rest[1..];
      } else {
        assert (["\n"] + rest)[1..] == rest;
      }
    }
  }

  lemma {:induction false} KindMentions(line: string) returns (i: nat)
    requires Kind(line).Some?
    ensures i <= |line| && HasPrefix(line[i..], TEMPLATE)
  {
    if MatchHere(line).Some? {
      i := 0;
      assert line[0..] == line;
    } else {
      i := KindMentions(line[1..]);
      assert line[1..][i..] == line[i + 1..];
      i := i + 1;
    }
  }

  lemma MentionWithin(a: string, line: string, b: string, i: nat)
    requires i <= |line| && HasPrefix(line[i..], TEMPLATE)
    ensures MentionsTemplate(a + line + b)
  {
    var s := a + line + b;
    assert s[|a| + i..][..|TEMPLATE|] == line[i..][..|TEMPLATE|];
    assert HasPrefix(s[|a| + i..], TEMPLATE);
  }

  lemma ConcatAround(ls: seq<string>, j: nat)
    requires j < |ls|
    ensures Concat(ls) == Concat(ls[..j]) + ls[j] + Concat(ls[j + 1..])
  {
    assert ls == ls[..j] + ls[j..] && ls[j..] == [ls[j]] + ls[j + 1..];
    ConcatAppend(ls[..j], ls[j..]);
  }

  lemma LineMentions(ls: seq<string>, j: nat)
    requires j < |ls| && Kind(ls[j]).Some?
    ensures MentionsTemplate(Concat(ls))
  {
    var i := KindMentions(ls[j]);
    MentionWithin(Concat(ls[..j]), ls[j], Concat(ls[j + 1..]), i);
    ConcatAround(ls, j);
  }

  lemma {:induction false} PlainLinesStay(ls: seq<string>, at: nat, remove: set<string>, drop: bool)
    requires forall j | 0 <= j < |ls| :: Kind(ls[j]).None?
    ensures Scan(ls, [], 0, at, remove, drop) == Ok(ls)
  {
    if ls != [] {
      PlainLinesStay(ls[1..], at + 1, remove, drop);
      assert [ls[0]] + ls[1..] == ls;
    }
  }

  lemma NoTemplateNoChange(content: string, remove: set<string>, drop: bool)
    requires !MentionsTemplate(content)
    ensures Strip(content, remove, drop) == Ok(content)
  {
    var ls := SplitAfter(content);
    ConcatSplit(content);
    forall j | 0 <= j < |ls| ensures Kind(ls[j]).None? {
      if Kind(ls[j]).Some? { LineMentions(ls, j); }
    }
    PlainLinesStay(ls, 1, remove, drop);
  }

  // ----- The parse tree -----

  /** A properly nested file: text lines and blocks, in order. */
  datatype Forest =
    | Empty
    | Text(line: string, rest: Forest)
    | Block(name: string, open: string, body: Forest, close: string, rest: Forest)

  predicate WellFormed(f: Forest) {
    match f
    case Empty => true
    case Text(line, rest) => Kind(line) == None && WellFormed(rest)
    case Block(name, open, body, close, rest) =>
      Kind(open) == Some(Begin(name)) && Kind(close) == Some(End(name)) && WellFormed(body) && WellFormed(rest)
  }

  function Lines(f: Forest): seq<string> {
    match f
    case Empty => []
    case Text(line, rest) => [line] + Lines(rest)
    case Block(_, open, body, close, rest) => [open] + Lines(body) + [close] + Lines(rest)
  }

  /** The lines that survive: removed blocks vanish with everything in them. */
  function Prune(f: Forest, remove: set<string>, drop: bool): seq<string> {
    match f
    case Empty => []
    case Text(line, rest) => [line] + Prune(rest, remove, drop)
    case Block(name, open, body, close, rest) =>
      (if name in remove then []
       else if drop then Prune(body, remove, drop)
       else [open] + Prune(body, remove, drop) + [close]) + Prune(rest, remove, drop)
  }

  /** A line with the names of the blocks it lies in; a marker line lies in its own block. */
  datatype Placed = Placed(line: string, marker: bool, within: set<string>)

  function Place(f: Forest, within: set<string>): seq<Placed> {
    match f
    case Empty => []
    case Text(line, rest) => [Placed(line, false, within)] + Place(rest, within)
    case Block(name, open, body, close, rest) =>
      var inner := within + {name};
      [Placed(open, true, inner)] + Place(body, inner) + [Placed(close, true, inner)] + Place(rest, within)
  }

  predicate Survives(p: Placed, remove: set<string>, drop: bool) {
    p.within * remove == {} && !(p.marker && drop)
  }

  function Survivors(ps: seq<Placed>, remove: set<string>, drop: bool): seq<string> {
    if ps == [] then []
    else Kept(ps[0], remove, drop) + Survivors(ps[1..], remove, drop)
  }

  function Kept(p: Placed, remove: set<string>, drop: bool): seq<string> {
    if Survives(p, remove, drop) then [p.line] else []
  }

  lemma {:induction false} SurvivorsAppend(a: seq<Placed>, b: seq<Placed>, remove: set<string>, drop: bool)
    ensures Survivors(a + b, remove, drop) == Survivors(a, remove, drop) + Survivors(b, remove, drop)
  {
    if a == [] {
      assert a + b == b;
    } else {
      SurvivorsAppend(a[1..], b, remove, drop);
      assert (a + b)[1..] == a[1..] + b && (a + b)[0] == a[0];
      var h, x, y := Kept(a[0], remove, drop), Survivors(a[1..], remove, drop), Survivors(b, remove, drop);
      assert h + (x + y) == (h + x) + y;
    }
  }

  lemma SurvivorsBlock(o: Placed, body: seq<Placed>, c: Placed, rest: seq<Placed>, remove: set<string>, drop: bool)
    ensures Survivors([o] + body + [c] + rest, remove, drop) ==
            Kept(o, remove, drop) + Survivors(body, remove, drop) + Kept(c, remove, drop) + Survivors(rest, remove, drop)
  {
    SurvivorsAppend([o] + body + [c], rest, remove, drop);
    SurvivorsAppend([o] + body, [c], remove, drop);
    SurvivorsAppend([o], body, remove, drop);
    assert Survivors([o], remove, drop) == Kept(o, remove, drop);
    assert Survivors([c], remove, drop) == Kept(c, remove, drop);
  }

  lemma WithinBlock(within: set<string>, name: string, remove: set<string>)
    ensures (within + {name}) * remove == {} <==> within * remove == {} && name !in remove
  {
    var both := (within + {name}) * remove;
    assert within * remove <= both && (name in both <==> name in remove);
    assert both <= within * remove + {name};
  }

  /** A line survives pruning exactly when no block it lies in is removed (and it is not a dropped
      marker). */
  lemma {:induction false} PruneKeepsUnremoved(f: Forest, within: set<string>, remove: set<string>, drop: bool)
    ensures Survivors(Place(f, within), remove, drop) == if within * remove == {} then Prune(f, remove, drop) else []
  {
    match f
    case Empty =>
    case Text(line, rest) =>
      PruneKeepsUnremoved(rest, within, remove, drop);
      assert ([Placed(line, false, within)] + Place(rest, within))[1..] == Place(rest, within);
    case Block(name, open, body, close, rest) =>
      var inner := within + {name};
      PruneKeepsUnremoved(body, inner, remove, drop);
      PruneKeepsUnremoved(rest, within, remove, drop);
      SurvivorsBlock(Placed(open, true, inner), Place(body, inner), Placed(close, true, inner), Place(rest, within), remove, drop);
      WithinBlock(within, name, remove);
      var b := Prune(body, remove, drop);
      assert [] + b + [] == b;
  }

  // ----- The algorithm is pruning -----

  /** Scanning a forest's lines emits its pruned lines and leaves stack and depth as they were. */
  lemma {:induction false} ScanForest(f: Forest, rest: seq<string>, stack: seq<string>, skip: nat, at: nat, remove: set<string>, drop: bool)
    requires WellFormed(f)
    ensures Scan(Lines(f) + rest, stack, skip, at, remove, drop) ==
            Prepend(if skip == 0 then Prune(f, remove, drop) else [], Scan(rest, stack, skip, at + |Lines(f)|, remove, drop))
    decreases f, 1
  {
    match f
    case Empty =>
      assert Lines(f) + rest == rest;
      PrependTwice([], [], Scan(rest, stack, skip, at, remove, drop));
    case Text(line, more) =>
      assert Lines(f) + rest == [line] + (Lines(more) + rest);
      ScanText(line, Lines(more) + rest, stack, skip, at, remove, drop);
      ScanForest(more, rest, stack, skip, at + 1, remove, drop);
      PrependTwice(if skip == 0 then [line] else [], if skip == 0 then Prune(more, remove, drop) else [],
                   Scan(rest, stack, skip, at + |Lines(f)|, remove, drop));
    case Block(name, open, body, close, more) =>
      ScanBlock(name, open, body, close, more, rest, stack, skip, at, remove, drop);
  }

  /** The depth after a begin marker. */
  function Inside(name: string, skip: nat, remove: set<string>): nat {
    if name in remove || skip > 0 then skip + 1 else 0
  }

  function Shown(line: string, skip: nat, drop: bool): seq<string> {
    if skip > 0 || drop then [] else [line]
  }

  lemma ScanText(line: string, after: seq<string>, stack: seq<string>, skip: nat, at: nat, remove: set<string>, drop: bool)
    requires Kind(line) == None
    ensures Scan([line] + after, stack, skip, at, remove, drop) ==
            Prepend(if skip == 0 then [line] else [], Scan(after, stack, skip, at + 1, remove, drop))
  {
    assert ([line] + after)[1..] == after;
  }

  lemma ScanBegin(open: string, name: string, after: seq<string>, stack: seq<string>, skip: nat, at: nat, remove: set<string>, drop: bool)
    requires Kind(open) == Some(Begin(name))
    ensures var inside := Inside(name, skip, remove);
            Scan([open] + after, stack, skip, at, remove, drop) ==
            Prepend(Shown(open, inside, drop), Scan(after, stack + [name], inside, at + 1, remove, drop))
  {
    assert ([open] + after)[1..] == after;
    PrependTwice([], [], Scan(after, stack + [name], Inside(name, skip, remove), at + 1, remove, drop));
  }

  lemma ScanEnd(close: string, name: string, after: seq<string>, stack: seq<string>, skip: nat, at: nat, remove: set<string>, drop: bool)
    requires Kind(close) == Some(End(name))
    ensures var inside := Inside(name, skip, remove);
            Scan([close] + after, stack + [name], inside, at, remove, drop) ==
            Prepend(Shown(close, inside, drop), Scan(after, stack, skip, at + 1, remove, drop))
  {
    assert ([close] + after)[1..] == after;
    assert (stack + [name])[..|stack|] == stack;
    PrependTwice([], [], Scan(after, stack, skip, at + 1, remove, drop));
  }

  lemma PrependFour(a: seq<string>, b: seq<string>, c: seq<string>, d: seq<string>, r: Stripped)
    ensures Prepend(a, Prepend(b, Prepend(c, Prepend(d, r)))) == Prepend(a + b + c + d, r)
  {
    PrependTwice(a, b, Prepend(c, Prepend(d, r)));
    PrependTwice(a + b, c, Prepend(d, r));
    PrependTwice(a + b + c, d, r);
  }

  /** The block case, entering with the depth the begin marker sets. */
  lemma {:induction false} ScanBlock(name: string, open: string, body: Forest, close: string, more: Forest, rest: seq<string>, stack: seq<string>, skip: nat, at: nat, remove: set<string>, drop: bool)
    requires WellFormed(Block(name, open, body, close, more))
    ensures var f := Block(name, open, body, close, more);
            Scan(Lines(f) + rest, stack, skip, at, remove, drop) ==
            Prepend(if skip == 0 then Prune(f, remove, drop) else [], Scan(rest, stack, skip, at + |Lines(f)|, remove, drop))
    decreases Block(name, open, body, close, more), 0
  {
    var f := Block(name, open, body, close, more);
    var inside := Inside(name, skip, remove);
    var after := Lines(more) + rest;
    var tail := [close] + after;
    assert Lines(f) + rest == [open] + (Lines(body) + tail);
    ScanBegin(open, name, Lines(body) + tail, stack, skip, at, remove, drop);
    ScanForest(body, tail, stack + [name], inside, at + 1, remove, drop);
    ScanEnd(close, name, after, stack, skip, at + 1 + |Lines(body)|, remove, drop);
    ScanForest(more, rest, stack, skip, at + 2 + |Lines(body)|, remove, drop);
    assert |Lines(f)| == 2 + |Lines(body)| + |Lines(more)|;
    PrependFour(Shown(open, inside, drop), if inside == 0 then Prune(body, remove, drop) else [], Shown(close, inside, drop),
                if skip == 0 then Prune(more, remove, drop) else [], Scan(rest, stack, skip, at + |Lines(f)|, remove, drop));
    BlockPieces(name, open, body, close, more, skip, remove, drop);
  }

  lemma BlockPieces(name: string, open: string, body: Forest, close: string, more: Forest, skip: nat, remove: set<string>, drop: bool)
    ensures var inside := Inside(name, skip, remove);
            Shown(open, inside, drop) + (if inside == 0 then Prune(body, remove, drop) else []) + Shown(close, inside, drop)
            + (if skip == 0 then Prune(more, remove, drop) else [])
            == if skip == 0 then Prune(Block(name, open, body, close, more), remove, drop) else []
  {
    var b := Prune(body, remove, drop);
    assert [] + b + [] == b;
  }

  // ----- Success is proper nesting -----

  /** What has been read while blocks are open: the forest before each open marker, outermost first. */
  datatype Context = Top | Within(outer: Context, before: Forest, name: string, open: string)

  predicate ContextOk(c: Context) {
    match c
    case Top => true
    case Within(outer, before, name, open) => ContextOk(outer) && WellFormed(before) && Kind(open) == Some(Begin(name))
  }

  function ContextLines(c: Context): seq<string> {
    match c case Top => [] case Within(outer, before, _, open) => ContextLines(outer) + Lines(before) + [open]
  }

  function OpenNames(c: Context): seq<string> {
    match c case Top => [] case Within(outer, _, name, _) => OpenNames(outer) + [name]
  }

  function Append(f: Forest, g: Forest): Forest {
    match f
    case Empty => g
    case Text(line, rest) => Text(line, Append(rest, g))
    case Block(name, open, body, close, rest) => Block(name, open, body, close, Append(rest, g))
  }

  lemma {:induction false} AppendLines(f: Forest, g: Forest)
    ensures Lines(Append(f, g)) == Lines(f) + Lines(g)
    ensures WellFormed(f) && WellFormed(g) ==> WellFormed(Append(f, g))
  {
    match f
    case Empty =>
    case Text(_, rest) => AppendLines(rest, g);
    case Block(_, open, body, close, rest) =>
      AppendLines(rest, g);
      assert Lines(Append(f, g)) == [open] + Lines(body) + [close] + (Lines(rest) + Lines(g));
  }

  predicate Closes(line: string, stack: seq<string>) {
    var k := Kind(line);
    k.Some? && k.value.End? ==> stack != [] && stack[|stack| - 1] == k.value.name
  }

  function NextStack(line: string, stack: seq<string>): seq<string>
    requires Closes(line, stack)
  {
    match Kind(line)
    case None => stack
    case Some(Begin(name)) => stack + [name]
    case Some(End(_)) => stack[..|stack| - 1]
  }

  lemma ScanStep(lines: seq<string>, stack: seq<string>, skip: nat, at: nat, remove: set<string>, drop: bool) returns (skip': nat)
    requires lines != [] && Scan(lines, stack, skip, at, remove, drop).Ok?
    ensures Closes(lines[0], stack) && Scan(lines[1..], NextStack(lines[0], stack), skip', at + 1, remove, drop).Ok?
  {
    match Kind(lines[0])
    case None => skip' := skip;
    case Some(Begin(name)) => skip' := Inside(name, skip, remove);
    case Some(End(_)) => skip' := if skip > 0 then skip - 1 else skip;
  }

  lemma CloseBlock(outer: seq<string>, before: Forest, block: Forest)
    requires WellFormed(before) && WellFormed(block)
    ensures WellFormed(Append(before, block))
    ensures outer + Lines(Append(before, block)) == outer + Lines(before) + Lines(block)
  {
    AppendLines(before, block);
  }

  lemma ReadLine(c: Context, done: Forest, line: string) returns (c': Context, done': Forest)
    requires ContextOk(c) && WellFormed(done) && Closes(line, OpenNames(c))
    ensures ContextOk(c') && WellFormed(done') && OpenNames(c') == NextStack(line, OpenNames(c))
    ensures ContextLines(c') + Lines(done') == ContextLines(c) + Lines(done) + [line]
  {
    assert WellFormed(Empty) && Lines(Empty) == [];
    match Kind(line)
    case None =>
      var text := Text(line, Empty);
      c', done' := c, Append(done, text);
      CloseBlock(ContextLines(c), done, text);
      assert Lines(text) == [line];
    case Some(Begin(name)) =>
      c', done' := Within(c, done, name, line), Empty;
    case Some(End(name)) =>
      var block := Block(name, c.open, done, line, Empty);
      c', done' := c.outer, Append(c.before, block);
      assert OpenNames(c)[..|OpenNames(c)| - 1] == OpenNames(c.outer);
      CloseBlock(ContextLines(c'), c.before, block);
      var outer, before, body := ContextLines(c'), Lines(c.before), Lines(done);
      assert Lines(block) == [c.open] + body + [line];
      assert outer + before + ([c.open] + body + [line]) == outer + before + [c.open] + body + [line];
  }

  /** A scan that succeeds rebuilds the forest it read. */
  lemma {:induction false} Parse(c: Context, done: Forest, lines: seq<string>, skip: nat, at: nat, remove: set<string>, drop: bool) returns (f: Forest)
    requires ContextOk(c) && WellFormed(done)
    requires Scan(lines, OpenNames(c), skip, at, remove, drop).Ok?
    ensures WellFormed(f) && Lines(f) == ContextLines(c) + Lines(done) + lines
    decreases |lines|
  {
    if lines == [] {
      f := done;
    } else {
      var skip' := ScanStep(lines, OpenNames(c), skip, at, remove, drop);
      var c', done' := ReadLine(c, done, lines[0]);
      f := Parse(c', done', lines[1..], skip', at + 1, remove, drop);
      assert lines == [lines[0]] + lines[1..];
    }
  }

  /** The file is properly nested. */
  ghost predicate Nested(content: string) {
    exists f :: WellFormed(f) && Lines(f) == SplitAfter(content)
  }

  /** On a properly nested file the result is the pruned tree. */
  lemma StripIsPruning(content: string, f: Forest, remove: set<string>, drop: bool)
    requires WellFormed(f) && Lines(f) == SplitAfter(content)
    ensures Strip(content, remove, drop) == Ok(Concat(Prune(f, remove, drop)))
  {
    ScanForest(f, [], [], 0, 1, remove, drop);
    assert Lines(f) + [] == Lines(f) && Prune(f, remove, drop) + [] == Prune(f, remove, drop);
  }

  /** Success does not depend on what is removed or whether markers are dropped: it is proper nesting. */
  lemma StripsExactlyNested(content: string, remove: set<string>, drop: bool)
    ensures Strip(content, remove, drop).Ok? <==> Nested(content)
  {
    if Strip(content, remove, drop).Ok? {
      var f := Parse(Top, Empty, SplitAfter(content), 0, 1, remove, drop);
      assert Lines(f) == SplitAfter(content);
    }
    if Nested(content) {
      var f :| WellFormed(f) && Lines(f) == SplitAfter(content);
      StripIsPruning(content, f, remove, drop);
    }
  }

  // ----- Splitting the kept lines again -----

  predicate NoBreak(line: string) {
    '\n' !in line
  }

  /** A line with its newline. */
  predicate Full(line: string) {
    line != "" && line[|line| - 1] == '\n' && NoBreak(line[..|line| - 1])
  }

  /** Every line but the last is full; the last one may lack its newline. */
  predicate Shaped(ls: seq<string>) {
    forall i | 0 <= i < |ls| :: Full(ls[i]) || (i == |ls| - 1 && NoBreak(ls[i]))
  }

  lemma {:induction false} SplitShaped(s: string)
    ensures Shaped(SplitAfter(s))
  {
    if s != "" {
      SplitShaped(s[1..]);
      var rest, whole := SplitAfter(s[1..]), SplitAfter(s);
      if s[0] != '\n' {
        var first := rest[0];
        assert whole[0] == [s[0]] + first;
        if Full(first) {
          assert whole[0][..|whole[0]| - 1] == [s[0]] + first[..|first| - 1];
        }
        assert forall i | 1 <= i < |whole| :: whole[i] == rest[i];
      } else {
        assert Full(whole[0]);
        assert forall i | 1 <= i < |whole| :: whole[i] == rest[i - 1];
      }
    }
  }

  lemma {:induction false} SplitPlain(line: string)
    requires NoBreak(line)
    ensures SplitAfter(line) == [line]
  {
    if line != "" {
      SplitPlain(line[1..]);
      assert line == [line[0]] + line[1..];
    }
  }

  lemma {:induction false} SplitFull(line: string, s: string)
    requires Full(line)
    ensures SplitAfter(line + s) == [line] + SplitAfter(s)
  {
    assert (line + s)[1..] == line[1..] + s;
    if |line| == 1 {
      assert line == "\n" && line[1..] + s == s;
    } else {
      assert line[0] == line[..|line| - 1][0];
      assert line[1..][..|line| - 2] == line[..|line| - 1][1..];
      SplitFull(line[1..], s);
      assert line == [line[0]] + line[1..];
      var rest := SplitAfter(line[1..] + s);
      assert rest[0] == line[1..] && rest[1..] == SplitAfter(s);
    }
  }

  /** What splitting makes of shaped lines: themselves, with an empty last piece if the last was full. */
  function Resplitted(ls: seq<string>): seq<string> {
    if ls == [] || Full(ls[|ls| - 1]) then ls + [""] else ls
  }

  lemma ResplittedCons(line: string, rest: seq<string>)
    requires Full(line)
    ensures Resplitted([line] + rest) == [line] + Resplitted(rest)
  {
    assert [line] + (rest + [""]) == ([line] + rest) + [""];
  }

  lemma {:induction false} Resplit(ls: seq<string>)
    requires Shaped(ls)
    ensures SplitAfter(Concat(ls)) == Resplitted(ls)
  {
    if ls != [] {
      var line, rest := ls[0], ls[1..];
      assert ls == [line] + rest;
      if Full(line) {
        ShapedTail(ls);
        Resplit(rest);
        SplitFull(line, Concat(rest));
        ResplittedCons(line, rest);
      } else {
        SplitPlain(line);
        assert rest == [] && Concat(rest) == "";
        assert Concat(ls) == line;
      }
    }
  }

  lemma ShapedTail(ls: seq<string>)
    requires Shaped(ls) && ls != []
    ensures Shaped(ls[1..])
  {
  }

  lemma {:induction false} PlaceLines(f: Forest, within: set<string>)
    ensures |Place(f, within)| == |Lines(f)|
    ensures forall i | 0 <= i < |Lines(f)| :: Place(f, within)[i].line == Lines(f)[i]
  {
    match f
    case Empty =>
    case Text(_, rest) => PlaceLines(rest, within);
    case Block(name, _, body, _, rest) =>
      PlaceLines(body, within + {name});
      PlaceLines(rest, within);
  }

  lemma {:induction false} SurvivorsShaped(ps: seq<Placed>, remove: set<string>, drop: bool)
    requires forall i | 0 <= i < |ps| :: Full(ps[i].line) || (i == |ps| - 1 && NoBreak(ps[i].line))
    ensures Shaped(Survivors(ps, remove, drop))
  {
    if ps != [] {
      SurvivorsShaped(ps[1..], remove, drop);
    }
  }

  lemma PruneShaped(f: Forest, remove: set<string>, drop: bool)
    requires Shaped(Lines(f))
    ensures Shaped(Prune(f, remove, drop))
  {
    PlaceLines(f, {});
    PruneKeepsUnremoved(f, {}, remove, drop);
    SurvivorsShaped(Place(f, {}), remove, drop);
  }

  // ----- Removing in two passes -----

  function PruneTree(f: Forest, remove: set<string>): Forest {
    match f
    case Empty => Empty
    case Text(line, rest) => Text(line, PruneTree(rest, remove))
    case Block(name, open, body, close, rest) =>
      if name in remove then PruneTree(rest, remove)
      else Block(name, open, PruneTree(body, remove), close, PruneTree(rest, remove))
  }

  lemma {:induction false} PruneTreeLines(f: Forest, remove: set<string>)
    ensures Lines(PruneTree(f, remove)) == Prune(f, remove, false)
    ensures WellFormed(f) ==> WellFormed(PruneTree(f, remove))
  {
    match f
    case Empty =>
    case Text(_, rest) => PruneTreeLines(rest, remove);
    case Block(_, _, body, _, rest) =>
      PruneTreeLines(body, remove);
      PruneTreeLines(rest, remove);
  }

  lemma {:induction false} PruneTwice(f: Forest, first: set<string>, second: set<string>, drop: bool)
    ensures Prune(PruneTree(f, first), second, drop) == Prune(f, first + second, drop)
  {
    match f
    case Empty =>
    case Text(_, rest) => PruneTwice(rest, first, second, drop);
    case Block(_, _, body, _, rest) =>
      PruneTwice(body, first, second, drop);
      PruneTwice(rest, first, second, drop);
  }

  lemma {:induction false} PruneAppendBlank(f: Forest, remove: set<string>, drop: bool)
    ensures Prune(Append(f, Text("", Empty)), remove, drop) == Prune(f, remove, drop) + [""]
  {
    match f
    case Empty =>
    case Text(_, rest) => PruneAppendBlank(rest, remove, drop);
    case Block(_, _, _, _, rest) => PruneAppendBlank(rest, remove, drop);
  }

  /** Reading back a forest's joined lines and pruning it, whether or not the last line was full. */
  lemma StripJoined(g: Forest, remove: set<string>, drop: bool)
    requires WellFormed(g) && Shaped(Lines(g))
    ensures Strip(Concat(Lines(g)), remove, drop) == Ok(Concat(Prune(g, remove, drop)))
  {
    Resplit(Lines(g));
    var joined, blank := Concat(Lines(g)), Text("", Empty);
    if SplitAfter(joined) == Lines(g) {
      StripIsPruning(joined, g, remove, drop);
    } else {
      AppendLines(g, blank);
      assert Lines(blank) == [""];
      StripIsPruning(joined, Append(g, blank), remove, drop);
      PruneAppendBlank(g, remove, drop);
      ConcatSnoc(Prune(g, remove, drop), "");
      assert Concat(Prune(g, remove, drop)) + "" == Concat(Prune(g, remove, drop));
    }
  }

  /** Removing one set with markers kept and another set afterwards is one pass with both. */
  lemma TwoPassesAreOne(content: string, first: set<string>, second: set<string>, drop: bool)
    ensures Strip(content, first, false).Ok? ==>
              Strip(Strip(content, first, false).value, second, drop) == Strip(content, first + second, drop)
  {
    StripsExactlyNested(content, first, false);
    if Strip(content, first, false).Ok? {
      var f :| WellFormed(f) && Lines(f) == SplitAfter(content);
      StripIsPruning(content, f, first, false);
      StripIsPruning(content, f, first + second, drop);
      SplitShaped(content);
      PruneShaped(f, first, false);
      PruneTreeLines(f, first);
      PruneTwice(f, first, second, drop);
      StripJoined(PruneTree(f, first), second, drop);
    }
  }
}
