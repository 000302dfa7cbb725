/**
 CANT messages: the header and body scanners, the split between them, the merge of what they find,
 and the printer they invert.
*/
module CantMessage {
  import opened Common
  import opened CantTokens

  datatype DirectiveType = Actionable | Routing | Informational

  datatype Message = Message(directive: Option<string>, directiveType: DirectiveType, addresses: seq<string>,
                             taskRefs: seq<string>, tags: seq<string>, headerRaw: string, body: string)

  function ClassifyDirective(verb: string): DirectiveType {
    if verb in ["claim", "done", "blocked", "approve", "decision", "checkin"] then Actionable
    else if verb in ["action", "review", "proposal"] then Routing
    else Informational
  }

  /** Where a character first occurs from `i` on. */
  function Find(s: string, i: nat, c: char): (r: Option<nat>)
    requires i <= |s|
    ensures r.Some? ==> i <= r.value < |s| && s[r.value] == c && forall k :: i <= k < r.value ==> s[k] != c
    ensures r.None? ==> forall k :: i <= k < |s| ==> s[k] != c
    decreases |s| - i
  {
    if i == |s| then None else if s[i] == c then Some(i) else Find(s, i + 1, c)
  }

  /** First line and everything after its newline. */
  function SplitHeaderBody(content: string): (string, string) {
    match Find(content, 0, '\n')
    case Some(at) => (content[..at], content[at + 1..])
    case None => (content, "")
  }

  /** What the header scanner finds: a directive at the very start, then the tokens. */
  function HeaderElements(header: string): seq<Element> {
    var start := RunEnd(header, 0, Space);
    match ParseDirective(header, start)
    case Match(end, verb) => [Directive(verb)] + Scan(header, end)
    case NoMatch => Scan(header, start)
  }

  /** The directive that is kept: the last one among the elements. */
  function DirectiveOf(es: seq<Element>): Option<string> {
    if es == [] then None
    else if es[|es| - 1].Directive? then Some(es[|es| - 1].verb) else DirectiveOf(es[..|es| - 1])
  }

  function TypeOf(directive: Option<string>): DirectiveType {
    match directive case Some(verb) => ClassifyDirective(verb) case None => Informational
  }

  /** The message as header and body together give it. */
  function ParseMessage(content: string): Message {
    var (header, body) := SplitHeaderBody(content);
    var es := HeaderElements(header);
    var found := Scan(body, 0);
    Message(DirectiveOf(es), TypeOf(DirectiveOf(es)), Addresses(es) + Addresses(found), TaskRefs(es) + TaskRefs(found),
            Tags(es) + Tags(found), header, body)
  }

  // ---------- the scanners ----------

  lemma {:induction false} PlainTextIsSkipped(s: string, i: nat, j: nat)
    requires i <= j <= |s| && forall k :: i <= k < j ==> s[k] != '@' && s[k] != '#' && s[k] != 'T'
    ensures Scan(s, i) == Scan(s, j)
    decreases j - i
  {
    if i < j {
      PlainTextIsSkipped(s, i + 1, j);
    }
  }

  lemma BlanksAreSkipped(s: string, i: nat)
    requires i <= |s|
    ensures Scan(s, i) == Scan(s, RunEnd(s, i, Space))
  {
    forall k | i <= k < RunEnd(s, i, Space)
      ensures s[k] != '@' && s[k] != '#' && s[k] != 'T'
    {
      RunIsOfClass(s, i, Space, k);
    }
    PlainTextIsSkipped(s, i, RunEnd(s, i, Space));
  }

  lemma DirectiveIsSkipped(s: string, i: nat)
    requires i <= |s| && ParseDirective(s, i).Match?
    ensures Scan(s, i) == Scan(s, ParseDirective(s, i).end)
  {
    var end := ParseDirective(s, i).end;
    forall k | i <= k < end
      ensures s[k] != '@' && s[k] != '#' && s[k] != 'T'
    {
      if k > i + 1 {
        RunIsOfClass(s, i + 2, Verb, k);
      }
    }
    PlainTextIsSkipped(s, i, end);
  }

  /** One turn of the header loop, by what it pushes. */
  lemma HeaderTurn(s: string, i: nat, es: seq<Element>, whole: seq<Element>)
    requires i < |s| && es + Scan(s, i) == whole
    ensures match TokenAt(s, i)
      case Token(e, end) => (es + [e]) + Scan(s, end) == whole
      case Nothing => es + Scan(s, i + 1) == whole
  {
    match TokenAt(s, i)
    case Token(e, end) => assert es + ([e] + Scan(s, end)) == (es + [e]) + Scan(s, end);
    case Nothing =>
  }

  method ParseHeader(header: string) returns (elements: seq<Element>)
    ensures elements == HeaderElements(header)
  {
    elements := [];
    ghost var whole := HeaderElements(header);
    var at := RunEnd(header, 0, Space);
    var directive := ParseDirective(header, at);
    if directive.Match? {
      elements := [Directive(directive.text)];
      at := directive.end;
    }
    while at < |header|
      invariant at <= |header|
      invariant elements + Scan(header, at) == whole
      decreases |header| - at
    {
      BlanksAreSkipped(header, at);
      var trimmed := RunEnd(header, at, Space);
      if trimmed == |header| {
        break;
      }
      elements, at := HeaderToken(header, trimmed, elements, whole);
    }
  }

  /** The part of the header loop after the trim: push the token that starts here, or skip a character. */
  method HeaderToken(header: string, at: nat, sofar: seq<Element>, ghost whole: seq<Element>)
    returns (elements: seq<Element>, next: nat)
    requires at < |header| && sofar + Scan(header, at) == whole
    ensures at < next <= |header| && elements + Scan(header, next) == whole
  {
    HeaderTurn(header, at, sofar, whole);
    var address := ParseMention(header, at, '@');
    if address.Match? {
      return sofar + [Address(address.text)], address.end;
    }
    var task := ParseTaskRef(header, at);
    if task.Match? && |task.text| > 1 && IsTaskRefBoundary(header, task.end) {
      return sofar + [TaskRef(task.text)], task.end;
    }
    var tag := ParseMention(header, at, '#');
    if tag.Match? {
      return sofar + [Tag(tag.text)], tag.end;
    }
    return sofar, at + 1;
  }

  /** The three lists of a body scan, as far as it got. */
  datatype Lists = Lists(addresses: seq<string>, taskRefs: seq<string>, tags: seq<string>)

  function ListsOf(es: seq<Element>): Lists {
    Lists(Addresses(es), TaskRefs(es), Tags(es))
  }

  function Append(a: Lists, b: Lists): Lists {
    Lists(a.addresses + b.addresses, a.taskRefs + b.taskRefs, a.tags + b.tags)
  }

  function Push(a: Lists, e: Element): Lists {
    match e
    case Address(x) => a.(addresses := a.addresses + [x])
    case TaskRef(x) => a.(taskRefs := a.taskRefs + [x])
    case Tag(x) => a.(tags := a.tags + [x])
    case Directive(_) => a
  }

  lemma PushThenAppend(a: Lists, e: Element, es: seq<Element>)
    ensures Append(a, ListsOf([e] + es)) == Append(Push(a, e), ListsOf(es))
  {
    ListsSplit([e], es);
    var (one, rest) := (ListsOf([e]), ListsOf(es));
    Associative(a.addresses, one.addresses, rest.addresses);
    Associative(a.taskRefs, one.taskRefs, rest.taskRefs);
    Associative(a.tags, one.tags, rest.tags);
    PushIsAppend(a, e);
  }

  lemma PushIsAppend(a: Lists, e: Element)
    ensures Push(a, e) == Append(a, ListsOf([e]))
  {
    assert [e][1..] == [];
    assert Addresses([e]) == if e.Address? then [e.name] else [];
    assert TaskRefs([e]) == if e.TaskRef? then [e.id] else [];
    assert Tags([e]) == if e.Tag? then [e.name] else [];
    assert a.addresses + [] == a.addresses && a.taskRefs + [] == a.taskRefs && a.tags + [] == a.tags;
  }

  /** One turn of the body loop, by what it pushes. */
  lemma BodyTurn(s: string, i: nat, a: Lists, whole: Lists)
    requires i < |s| && Append(a, ListsOf(Scan(s, i))) == whole
    ensures match TokenAt(s, i)
      case Token(e, end) => Append(Push(a, e), ListsOf(Scan(s, end))) == whole
      case Nothing => Append(a, ListsOf(Scan(s, i + 1))) == whole
  {
    match TokenAt(s, i)
    case Token(e, end) => PushThenAppend(a, e, Scan(s, end));
    case Nothing =>
  }

  method ParseBody(body: string) returns (addresses: seq<string>, taskRefs: seq<string>, tags: seq<string>)
    ensures Lists(addresses, taskRefs, tags) == ListsOf(Scan(body, 0))
  {
    addresses, taskRefs, tags := [], [], [];
    var at := 0;
    ghost var whole := ListsOf(Scan(body, 0));
    while at < |body|
      invariant at <= |body|
      invariant Append(Lists(addresses, taskRefs, tags), ListsOf(Scan(body, at))) == whole
      decreases |body| - at
    {
      BodyTurn(body, at, Lists(addresses, taskRefs, tags), whole);
      var address := ParseMention(body, at, '@');
      if address.Match? {
        addresses := addresses + [address.text];
        at := address.end;
        continue;
      }
      var task := ParseTaskRef(body, at);
      if task.Match? && |task.text| > 1 && IsTaskRefBoundary(body, task.end) {
        taskRefs := taskRefs + [task.text];
        at := task.end;
        continue;
      }
      var tag := ParseMention(body, at, '#');
      if tag.Match? {
        tags := tags + [tag.text];
        at := tag.end;
        continue;
      }
      at := at + 1;
    }
  }

  lemma ListsSnoc(es: seq<Element>, i: nat)
    requires i < |es|
    ensures DirectiveOf(es[..i + 1]) == if es[i].Directive? then Some(es[i].verb) else DirectiveOf(es[..i])
    ensures Addresses(es[..i + 1]) == Addresses(es[..i]) + if es[i].Address? then [es[i].name] else []
    ensures TaskRefs(es[..i + 1]) == TaskRefs(es[..i]) + if es[i].TaskRef? then [es[i].id] else []
    ensures Tags(es[..i + 1]) == Tags(es[..i]) + if es[i].Tag? then [es[i].name] else []
  {
    assert es[..i + 1] == es[..i] + [es[i]] && es[..i + 1][..i] == es[..i];
    ListsSplit(es[..i], [es[i]]);
  }

  method Parse(content: string) returns (m: Message)
    ensures m == ParseMessage(content)
  {
    var (header, body) := SplitHeaderBody(content);
    var elements := ParseHeader(header);
    var directive: Option<string> := None;
    var addresses, taskRefs, tags := [], [], [];
    for i := 0 to |elements|
      invariant directive == DirectiveOf(elements[..i])
      invariant addresses == Addresses(elements[..i])
      invariant taskRefs == TaskRefs(elements[..i])
      invariant tags == Tags(elements[..i])
    {
      ListsSnoc(elements, i);
      match elements[i]
      case Directive(v) => directive := Some(v);
      case Address(a) => addresses := addresses + [a];
      case TaskRef(t) => taskRefs := taskRefs + [t];
      case Tag(t) => tags := tags + [t];
    }
    assert elements[..|elements|] == elements;
    var bodyAddresses, bodyTaskRefs, bodyTags := ParseBody(body);
    addresses := addresses + bodyAddresses;
    taskRefs := taskRefs + bodyTaskRefs;
    tags := tags + bodyTags;
    var directiveType := if directive.Some? then ClassifyDirective(directive.value) else Informational;
    m := Message(directive, directiveType, addresses, taskRefs, tags, header, body);
  }

  // ---------- header and body agree with one scan ----------

  lemma HeaderAgreesWithScan(header: string)
    ensures Addresses(HeaderElements(header)) == Addresses(Scan(header, 0))
    ensures TaskRefs(HeaderElements(header)) == TaskRefs(Scan(header, 0))
    ensures Tags(HeaderElements(header)) == Tags(Scan(header, 0))
  {
    BlanksAreSkipped(header, 0);
    var start := RunEnd(header, 0, Space);
    var directive := ParseDirective(header, start);
    if directive.Match? {
      DirectiveIsSkipped(header, start);
      ListsSplit([Directive(directive.text)], Scan(header, directive.end));
    }
  }

  /** Splitting loses nothing: header, newline and body are the content, and the header is its first line. */
  lemma SplitIsExact(content: string)
    ensures var (header, body) := SplitHeaderBody(content);
      && '\n' !in header
      && content == (if '\n' in content then header + "\n" + body else header)
      && ('\n' !in content ==> body == "")
  {
  }

  /** For every content string, with or without a directive, the merged lists of header and body are
      those of one scan over the whole string. */
  lemma ParseAgreesWithOneScan(content: string)
    ensures var m := ParseMessage(content); var es := Scan(content, 0);
      m.addresses == Addresses(es) && m.taskRefs == TaskRefs(es) && m.tags == Tags(es)
  {
    var (header, body) := SplitHeaderBody(content);
    SplitIsExact(content);
    HeaderAgreesWithScan(header);
    if '\n' in content {
      assert header + "\n" + body == header + ['\n'] + body;
      ScanJoin(header, '\n', body);
      ListsSplit(Scan(header, 0), Scan(body, 0));
    }
  }

  lemma {:induction false} ScanFindsNoDirective(s: string, i: nat)
    requires i <= |s|
    ensures DirectiveOf(Scan(s, i)) == None
    decreases |s| - i
  {
    if i < |s| {
      match TokenAt(s, i)
      case Token(e, end) =>
        ScanFindsNoDirective(s, end);
        DirectiveOfCons(e, Scan(s, end));
      case Nothing =>
        ScanFindsNoDirective(s, i + 1);
    }
  }

  lemma {:induction false} DirectiveOfCons(e: Element, es: seq<Element>)
    requires DirectiveOf(es) == None
    ensures DirectiveOf([e] + es) == if e.Directive? then Some(e.verb) else None
    decreases es
  {
    if es == [] {
      assert [e] + es == [e];
    } else {
      var n := |es| - 1;
      assert ([e] + es)[..n + 1] == [e] + es[..n] && ([e] + es)[n + 1] == es[n];
      DirectiveOfCons(e, es[..n]);
    }
  }

  lemma HeaderDirective(header: string)
    ensures var start := RunEnd(header, 0, Space); var directive := ParseDirective(header, start);
      DirectiveOf(HeaderElements(header)) == match directive case Match(_, verb) => Some(verb) case NoMatch => None
  {
    var start := RunEnd(header, 0, Space);
    match ParseDirective(header, start)
    case Match(end, verb) =>
      ScanFindsNoDirective(header, end);
      DirectiveOfCons(Directive(verb), Scan(header, end));
    case NoMatch =>
      ScanFindsNoDirective(header, start);
  }

  /** A message has a directive exactly when its first line opens, after blanks, with a slash and a
      lower-case letter. */
  lemma HasDirectiveIff(content: string)
    ensures var header := SplitHeaderBody(content).0; var start := RunEnd(header, 0, Space);
      ParseMessage(content).directive.Some? <==>
        start + 1 < |header| && header[start] == '/' && IsLower(header[start + 1])
  {
    HeaderDirective(SplitHeaderBody(content).0);
  }

  /** What a message keeps besides its lists: the first line as it stands, everything after its newline, and the type
      of its directive. */
  lemma MessageKeepsItsParts(content: string)
    ensures var m := ParseMessage(content);
      && '\n' !in m.headerRaw
      && content == (if '\n' in content then m.headerRaw + "\n" + m.body else m.headerRaw)
      && ('\n' !in content ==> m.body == "")
      && (m.directiveType == Actionable <==>
            m.directive.Some? && m.directive.value in {"claim", "done", "blocked", "approve", "decision", "checkin"})
      && (m.directiveType == Routing <==> m.directive.Some? && m.directive.value in {"action", "review", "proposal"})
  {
    SplitIsExact(content);
  }

  /** The directive is the maximal verb after the slash that opens the first line, blanks aside. */
  lemma DirectiveIsTheVerb(content: string, e: nat)
    ensures var header := ParseMessage(content).headerRaw; var start := RunEnd(header, 0, Space);
      start < |header| && header[start] == '/' && IsMaximalVerb(header, start + 1, e) ==>
        ParseMessage(content).directive == Some(header[start + 1..e])
  {
    var header := ParseMessage(content).headerRaw;
    var start := RunEnd(header, 0, Space);
    HeaderDirective(header);
    DirectiveAtIff(header, start, e);
  }

  // ---------- the printer ----------

  ghost predicate AllIn(s: string, k: CharClass) {
    forall i :: 0 <= i < |s| ==> In(s[i], k)
  }

  /** Elements as the grammar writes them. */
  ghost predicate WellFormed(e: Element) {
    match e
    case Directive(v) => v != [] && IsLower(v[0]) && AllIn(v, Verb)
    case Address(a) => a != [] && IsAlpha(a[0]) && AllIn(a, Ident)
    case Tag(a) => a != [] && IsAlpha(a[0]) && AllIn(a, Ident)
    case TaskRef(t) => |t| > 1 && t[0] == 'T' && AllIn(t[1..], Digits)
  }

  ghost predicate WellFormedTokens(es: seq<Element>) {
    forall i :: 0 <= i < |es| ==> WellFormed(es[i]) && !es[i].Directive?
  }

  function Print(e: Element): string {
    match e
    case Directive(v) => "/" + v
    case Address(a) => "@" + a
    case Tag(a) => "#" + a
    case TaskRef(t) => t
  }

  /** Printed elements joined by single spaces. */
  function Join(es: seq<Element>): string {
    if es == [] then "" else if |es| == 1 then Print(es[0]) else Print(es[0]) + [' '] + Join(es[1..])
  }

  lemma {:induction false} RunToTheEnd(s: string, i: nat, k: CharClass)
    requires i <= |s| && forall j :: i <= j < |s| ==> In(s[j], k)
    ensures RunEnd(s, i, k) == |s|
    decreases |s| - i
  {
    if i < |s| {
      RunToTheEnd(s, i + 1, k);
    }
  }

  lemma PrintedMention(sigil: char, a: string)
    requires a != [] && IsAlpha(a[0]) && AllIn(a, Ident)
    ensures var s := [sigil] + a; ParseMention(s, 0, sigil) == Match(|s|, a)
  {
    var s := [sigil] + a;
    assert forall j :: 1 <= j < |s| ==> s[j] == a[j - 1];
    RunToTheEnd(s, 2, Ident);
    assert s[1..|s|] == a;
  }

  lemma PrintedTaskRef(t: string)
    requires WellFormed(TaskRef(t))
    ensures ParseTaskRef(t, 0) == Match(|t|, t)
  {
    assert forall j :: 1 <= j < |t| ==> t[j] == t[1..][j - 1];
    RunToTheEnd(t, 2, Digits);
    assert t[0..|t|] == t;
  }

  lemma PrintedTokenScans(e: Element)
    requires WellFormed(e) && !e.Directive?
    ensures Scan(Print(e), 0) == [e]
  {
    var s := Print(e);
    match e
    case Address(a) => PrintedMention('@', a);
    case Tag(a) => PrintedMention('#', a);
    case TaskRef(t) => PrintedTaskRef(t);
    assert TokenAt(s, 0) == Token(e, |s|);
  }

  lemma {:induction false} JoinedTokensScan(es: seq<Element>)
    requires WellFormedTokens(es)
    ensures Scan(Join(es), 0) == es
    decreases es
  {
    if es != [] {
      PrintedTokenScans(es[0]);
      if |es| == 1 {
        assert es == [es[0]];
      } else {
        JoinedTokensScan(es[1..]);
        ScanJoin(Print(es[0]), ' ', Join(es[1..]));
        assert es == [es[0]] + es[1..];
      }
    }
  }

  /** A directive, if any, and the tokens. */
  function WithDirective(verb: Option<string>, es: seq<Element>): seq<Element> {
    (if verb.Some? then [Directive(verb.value)] else []) + es
  }

  lemma DirectiveParsesBack(v: string, rest: string)
    requires WellFormed(Directive(v)) && Cuts(rest)
    ensures HeaderElements("/" + v + rest) == [Directive(v)] + Scan(rest, 0)
  {
    var a := "/" + v;
    var h := a + rest;
    assert a[1..] == v;
    RunToTheEnd(a, 2, Verb);
    RunBeforeCut(a, rest, 2, Verb);
    assert ParseDirective(h, 0) == Match(|a|, v) by {
      assert h[1..|a|] == v;
    }
    assert RunEnd(h, 0, Space) == 0;
    ScanAfterCut(a, rest, 0);
  }

  /** What follows a directive on its line. */
  function Tail(es: seq<Element>): string {
    if es == [] then "" else [' '] + Join(es)
  }

  lemma TailScans(es: seq<Element>)
    requires WellFormedTokens(es)
    ensures Cuts(Tail(es)) && Scan(Tail(es), 0) == es
  {
    JoinedTokensScan(es);
    if es != [] {
      ScanJoin("", ' ', Join(es));
      assert "" + [' '] + Join(es) == Tail(es);
    }
  }

  lemma JoinWithDirective(v: string, es: seq<Element>)
    ensures Join([Directive(v)] + es) == "/" + v + Tail(es)
  {
    var all := [Directive(v)] + es;
    assert all[1..] == es;
    if es != [] {
      assert Join(all) == ("/" + v) + [' '] + Join(es);
    }
  }

  lemma HeaderOfTokens(es: seq<Element>)
    requires WellFormedTokens(es)
    ensures HeaderElements(Join(es)) == es
  {
    JoinedTokensScan(es);
    if es != [] {
      assert WellFormed(es[0]) && !es[0].Directive?;
      assert Join(es)[0] == Print(es[0])[0];
      assert RunEnd(Join(es), 0, Space) == 0;
    }
  }

  /** Parser and printer undo each other: for any optional directive and any well-formed tokens, the
      header scanner returns exactly the printed list. */
  lemma HeaderRoundTrip(verb: Option<string>, es: seq<Element>)
    requires WellFormedTokens(es) && (verb.Some? ==> WellFormed(Directive(verb.value)))
    ensures HeaderElements(Join(WithDirective(verb, es))) == WithDirective(verb, es)
  {
    if verb.Some? {
      TailScans(es);
      JoinWithDirective(verb.value, es);
      DirectiveParsesBack(verb.value, Tail(es));
    } else {
      assert WithDirective(verb, es) == es;
      HeaderOfTokens(es);
    }
  }

  lemma {:induction false} JoinIsOneLine(es: seq<Element>)
    requires forall i :: 0 <= i < |es| ==> WellFormed(es[i])
    ensures '\n' !in Join(es)
    decreases es
  {
    if es != [] {
      PrintIsOneLine(es[0]);
      if |es| > 1 {
        JoinIsOneLine(es[1..]);
      }
    }
  }

  lemma PrintIsOneLine(e: Element)
    requires WellFormed(e)
    ensures '\n' !in Print(e)
  {
    if e.TaskRef? {
      assert forall i :: 0 < i < |e.id| ==> e.id[i] == e.id[1..][i - 1];
    }
  }

  lemma SplitsAtNewline(h: string, b: string)
    requires '\n' !in h
    ensures SplitHeaderBody(h + ['\n'] + b) == (h, b)
  {
    var content := h + ['\n'] + b;
    assert content[|h|] == '\n';
    assert forall k :: 0 <= k < |h| ==> content[k] == h[k] && h[k] in h;
    assert Find(content, 0, '\n') == Some(|h|);
    assert content[..|h|] == h && content[|h| + 1..] == b;
  }

  lemma DirectiveKept(verb: Option<string>, es: seq<Element>)
    requires WellFormedTokens(es)
    ensures var all := WithDirective(verb, es);
      && DirectiveOf(all) == verb
      && Addresses(all) == Addresses(es) && TaskRefs(all) == TaskRefs(es) && Tags(all) == Tags(es)
  {
    JoinedTokensScan(es);
    ScanFindsNoDirective(Join(es), 0);
    if verb.Some? {
      ListsSplit([Directive(verb.value)], es);
      DirectiveOfCons(Directive(verb.value), es);
    } else {
      assert WithDirective(verb, es) == es;
    }
  }

  /** A message printed as a header line and a body line parses back to its directive and to the
      tokens of both lines. */
  lemma MessageRoundTrip(verb: Option<string>, es: seq<Element>, bs: seq<Element>)
    requires WellFormedTokens(es) && WellFormedTokens(bs) && (verb.Some? ==> WellFormed(Directive(verb.value)))
    ensures var m := ParseMessage(Join(WithDirective(verb, es)) + ['\n'] + Join(bs));
      && m.directive == verb
      && m.addresses == Addresses(es) + Addresses(bs)
      && m.taskRefs == TaskRefs(es) + TaskRefs(bs)
      && m.tags == Tags(es) + Tags(bs)
  {
    var all := WithDirective(verb, es);
    assert forall i :: 0 <= i < |all| ==> WellFormed(all[i]);
    JoinIsOneLine(all);
    SplitsAtNewline(Join(all), Join(bs));
    HeaderRoundTrip(verb, es);
    JoinedTokensScan(bs);
    DirectiveKept(verb, es);
  }
}
