/**
 The tokens of a CANT message: directives, addresses, task references and tags, and the one scan
 that finds them wherever they stand. The unread rest of a text is given by where it begins.
*/
module CantTokens {
  import opened Common

  predicate IsLower(c: char) { 'a' <= c <= 'z' }
  predicate IsUpper(c: char) { 'A' <= c <= 'Z' }
  predicate IsDigit(c: char) { '0' <= c <= '9' }
  predicate IsAlpha(c: char) { IsLower(c) || IsUpper(c) }

  /** Unicode White_Space, which `trim_start` strips. */
  predicate IsSpace(c: char) {
    '\U{0009}' <= c <= '\U{000D}' || c == ' ' || c == '\U{0085}' || c == '\U{00A0}' || c == '\U{1680}'
    || '\U{2000}' <= c <= '\U{200A}' || c == '\U{2028}' || c == '\U{2029}' || c == '\U{202F}'
    || c == '\U{205F}' || c == '\U{3000}'
  }

  /** The kinds of run the parsers take. */
  datatype CharClass = Ident | Digits | Verb | Space

  predicate In(c: char, k: CharClass) {
    match k
    case Ident => IsAlpha(c) || IsDigit(c) || c == '-' || c == '_'
    case Digits => IsDigit(c)
    case Verb => IsLower(c) || IsDigit(c) || c == '-'
    case Space => IsSpace(c)
  }

  /** Where the longest run of a class from `i` ends. */
  function RunEnd(s: string, i: nat, k: CharClass): (e: nat)
    requires i <= |s|
    ensures i <= e <= |s|
    ensures e < |s| ==> !In(s[e], k)
    decreases |s| - i
  {
    if i < |s| && In(s[i], k) then RunEnd(s, i + 1, k) else i
  }

  lemma {:induction false} RunIsOfClass(s: string, i: nat, k: CharClass, j: nat)
    requires i <= |s| && i <= j < RunEnd(s, i, k)
    ensures In(s[j], k) && RunEnd(s, j, k) == RunEnd(s, i, k)
    decreases j - i
  {
    if i < j {
      RunIsOfClass(s, i + 1, k, j);
    }
  }

  /** A parser either fails or names the token's text and where the rest begins. */
  datatype Parse = NoMatch | Match(end: nat, text: string)

  function ParseDirective(s: string, i: nat): (p: Parse)
    requires i <= |s|
    ensures p.Match? ==> i + 1 < p.end <= |s|
  {
    if i + 1 < |s| && s[i] == '/' && IsLower(s[i + 1]) then
      var e := RunEnd(s, i + 2, Verb);
      Match(e, s[i + 1..e])
    else NoMatch
  }

  /** `@` or `#` and an identifier. */
  function ParseMention(s: string, i: nat, sigil: char): (p: Parse)
    requires i <= |s|
    ensures p.Match? ==> i + 1 < p.end <= |s|
  {
    if i + 1 < |s| && s[i] == sigil && IsAlpha(s[i + 1]) then
      var e := RunEnd(s, i + 2, Ident);
      Match(e, s[i + 1..e])
    else NoMatch
  }

  function ParseTaskRef(s: string, i: nat): (p: Parse)
    requires i <= |s|
    ensures p.Match? ==> i + 1 < p.end <= |s| && |p.text| == p.end - i
  {
    if i + 1 < |s| && s[i] == 'T' && IsDigit(s[i + 1]) then
      var e := RunEnd(s, i + 2, Digits);
      Match(e, s[i..e])
    else NoMatch
  }

  predicate IsTaskRefBoundary(s: string, e: nat)
    requires e <= |s|
  {
    e == |s| || !(IsAlpha(s[e]) || s[e] == '_' || s[e] == '-')
  }

  datatype Element = Directive(verb: string) | Address(name: string) | TaskRef(id: string) | Tag(name: string)

  datatype Found = Nothing | Token(element: Element, end: nat)

  /** The token that starts here, if any, in the order the scanners try them. */
  function TokenAt(s: string, i: nat): (f: Found)
    requires i <= |s|
    ensures f.Token? ==> i + 1 < f.end <= |s|
  {
    var address := ParseMention(s, i, '@');
    if address.Match? then Token(Address(address.text), address.end) else
    var task := ParseTaskRef(s, i);
    if task.Match? && |task.text| > 1 && IsTaskRefBoundary(s, task.end) then Token(TaskRef(task.text), task.end) else
    var tag := ParseMention(s, i, '#');
    if tag.Match? then Token(Tag(tag.text), tag.end) else Nothing
  }

  /** Every token from `i` on, left to right; what is no token is skipped character by character. */
  function Scan(s: string, i: nat): seq<Element>
    requires i <= |s|
    decreases |s| - i
  {
    if i == |s| then []
    else
      match TokenAt(s, i)
      case Token(e, end) => [e] + Scan(s, end)
      case Nothing => Scan(s, i + 1)
  }

  function Addresses(es: seq<Element>): seq<string> {
    if es == [] then [] else (if es[0].Address? then [es[0].name] else []) + Addresses(es[1..])
  }

  function TaskRefs(es: seq<Element>): seq<string> {
    if es == [] then [] else (if es[0].TaskRef? then [es[0].id] else []) + TaskRefs(es[1..])
  }

  function Tags(es: seq<Element>): seq<string> {
    if es == [] then [] else (if es[0].Tag? then [es[0].name] else []) + Tags(es[1..])
  }

  lemma {:induction false} ListsSplit(a: seq<Element>, b: seq<Element>)
    ensures Addresses(a + b) == Addresses(a) + Addresses(b)
    ensures TaskRefs(a + b) == TaskRefs(a) + TaskRefs(b)
    ensures Tags(a + b) == Tags(a) + Tags(b)
    decreases a
  {
    if a == [] {
      assert a + b == b;
    } else {
      assert (a + b)[1..] == a[1..] + b && (a + b)[0] == a[0];
      ListsSplit(a[1..], b);
      Associative(if a[0].Address? then [a[0].name] else [], Addresses(a[1..]), Addresses(b));
      Associative(if a[0].TaskRef? then [a[0].id] else [], TaskRefs(a[1..]), TaskRefs(b));
      Associative(if a[0].Tag? then [a[0].name] else [], Tags(a[1..]), Tags(b));
    }
  }

  // ---------- where a text may be cut ----------

  /** Nothing runs across a cut before a character that continues no identifier. */
  predicate Cuts(b: string) {
    b == [] || !In(b[0], Ident)
  }

  lemma {:induction false} RunBeforeCut(a: string, b: string, i: nat, k: CharClass)
    requires Cuts(b) && i <= |a| && k != Space
    ensures RunEnd(a + b, i, k) == RunEnd(a, i, k)
    decreases |a| - i
  {
    if i < |a| {
      RunBeforeCut(a, b, i + 1, k);
    }
  }

  lemma TokenBeforeCut(a: string, b: string, i: nat)
    requires Cuts(b) && i < |a|
    ensures TokenAt(a + b, i) == TokenAt(a, i)
  {
    var s := a + b;
    if i + 1 < |a| {
      RunBeforeCut(a, b, i + 2, Ident);
      RunBeforeCut(a, b, i + 2, Digits);
      var (e, d) := (RunEnd(a, i + 2, Ident), RunEnd(a, i + 2, Digits));
      SliceOfPrefix(a, b, i + 1, e);
      SliceOfPrefix(a, b, i, d);
      assert IsTaskRefBoundary(s, d) <==> IsTaskRefBoundary(a, d);
    }
  }

  lemma {:induction false} RunAfterCut(a: string, b: string, j: nat, k: CharClass)
    requires j <= |b|
    ensures RunEnd(a + b, |a| + j, k) == |a| + RunEnd(b, j, k)
    decreases |b| - j
  {
    if j < |b| {
      RunAfterCut(a, b, j + 1, k);
    }
  }

  function Shift(f: Found, n: nat): Found {
    match f case Nothing => Nothing case Token(e, end) => Token(e, n + end)
  }

  lemma MentionAfterCut(a: string, b: string, j: nat, sigil: char)
    requires j <= |b|
    ensures ParseMention(a + b, |a| + j, sigil) ==
      match ParseMention(b, j, sigil) case NoMatch => NoMatch case Match(end, text) => Match(|a| + end, text)
  {
    if j + 1 < |b| {
      RunAfterCut(a, b, j + 2, Ident);
      var e := RunEnd(b, j + 2, Ident);
      SliceOfSuffix(a, b, j + 1, e);
    }
  }

  lemma TaskRefAfterCut(a: string, b: string, j: nat)
    requires j <= |b|
    ensures ParseTaskRef(a + b, |a| + j) ==
      match ParseTaskRef(b, j) case NoMatch => NoMatch case Match(end, text) => Match(|a| + end, text)
  {
    if j + 1 < |b| {
      RunAfterCut(a, b, j + 2, Digits);
      var e := RunEnd(b, j + 2, Digits);
      SliceOfSuffix(a, b, j, e);
    }
  }

  lemma TokenAfterCut(a: string, b: string, j: nat)
    requires j <= |b|
    ensures TokenAt(a + b, |a| + j) == Shift(TokenAt(b, j), |a|)
  {
    MentionAfterCut(a, b, j, '@');
    MentionAfterCut(a, b, j, '#');
    TaskRefAfterCut(a, b, j);
    var task := ParseTaskRef(b, j);
    if task.Match? {
      assert IsTaskRefBoundary(a + b, |a| + task.end) <==> IsTaskRefBoundary(b, task.end);
    }
  }

  /** The scan over any tokenizer. */
  ghost function ScanBy(tok: nat -> Found, size: nat, i: nat): seq<Element>
    requires i <= size
    decreases size - i
  {
    if i == size then []
    else
      match tok(i)
      case Token(e, end) => if i < end <= size then [e] + ScanBy(tok, size, end) else []
      case Nothing => ScanBy(tok, size, i + 1)
  }

  ghost function TokensOf(s: string): (tok: nat -> Found)
    ensures Tokenizes(tok, s)
  {
    (i: nat) => if i <= |s| then TokenAt(s, i) else Nothing
  }

  lemma {:induction false} ScanIsScanBy(s: string, tok: nat -> Found, i: nat)
    requires i <= |s| && Tokenizes(tok, s)
    ensures Scan(s, i) == ScanBy(tok, |s|, i)
    decreases |s| - i
  {
    if i < |s| {
      assert tok(i) == TokenAt(s, i);
      match tok(i)
      case Token(e, end) => ScanIsScanBy(s, tok, end);
      case Nothing => ScanIsScanBy(s, tok, i + 1);
    }
  }

  lemma {:induction false} ShiftedScan(t: nat -> Found, tok: nat -> Found, n: nat, size: nat, j: nat)
    requires j <= size && Shifted(t, tok, n, size)
    ensures ScanBy(t, n + size, n + j) == ScanBy(tok, size, j)
    decreases size - j
  {
    if j < size {
      assert t(n + j) == Shift(tok(j), n);
      match tok(j)
      case Token(e, end) => if j < end <= size { ShiftedScan(t, tok, n, size, end); }
      case Nothing => ShiftedScan(t, tok, n, size, j + 1);
    }
  }

  predicate Tokenizes(tok: nat -> Found, s: string) {
    forall k: nat {:trigger TokenAt(s, k)} :: k <= |s| ==> tok(k) == TokenAt(s, k)
  }

  ghost predicate Shifted(t: nat -> Found, tok: nat -> Found, n: nat, size: nat) {
    forall k: nat {:trigger tok(k)} :: k <= size ==> t(n + k) == Shift(tok(k), n)
  }

  lemma TokensShift(a: string, b: string, t: nat -> Found, tok: nat -> Found)
    requires Tokenizes(t, a + b) && Tokenizes(tok, b)
    ensures Shifted(t, tok, |a|, |b|)
  {
    forall k: nat | k <= |b|
      ensures t(|a| + k) == Shift(tok(k), |a|)
    {
      OneTokenShifts(a, b, t, tok, k);
    }
  }

  lemma OneTokenShifts(a: string, b: string, t: nat -> Found, tok: nat -> Found, k: nat)
    requires k <= |b| && Tokenizes(t, a + b) && Tokenizes(tok, b)
    ensures t(|a| + k) == Shift(tok(k), |a|)
  {
    TokenAfterCut(a, b, k);
  }

  lemma ShiftedTokensScanAlike(s: string, b: string, n: nat, t: nat -> Found, tok: nat -> Found, j: nat)
    requires |s| == n + |b| && j <= |b| && Tokenizes(t, s) && Tokenizes(tok, b) && Shifted(t, tok, n, |b|)
    ensures Scan(s, n + j) == Scan(b, j)
  {
    ScanIsScanBy(s, t, n + j);
    ScanIsScanBy(b, tok, j);
    ShiftedScan(t, tok, n, |b|, j);
  }

  /** A suffix scans as it would alone: no token looks back. */
  lemma ScanAfterCut(a: string, b: string, j: nat)
    requires j <= |b|
    ensures Scan(a + b, |a| + j) == Scan(b, j)
  {
    var (t, tok) := (TokensOf(a + b), TokensOf(b));
    TokensShift(a, b, t, tok);
    ShiftedTokensScanAlike(a + b, b, |a|, t, tok, j);
  }

  ghost predicate SamePrefix(t: nat -> Found, tok: nat -> Found, n: nat) {
    forall k: nat {:trigger tok(k)} :: k < n ==> t(k) == tok(k) && (tok(k).Token? ==> k < tok(k).end <= n)
  }

  lemma {:induction false} PrefixScan(t: nat -> Found, tok: nat -> Found, n: nat, size: nat, i: nat)
    requires i <= n <= size && SamePrefix(t, tok, n)
    ensures ScanBy(t, size, i) == ScanBy(tok, n, i) + ScanBy(t, size, n)
    decreases n - i
  {
    if i < n {
      match tok(i)
      case Token(e, end) =>
        PrefixScan(t, tok, n, size, end);
        Associative([e], ScanBy(tok, n, end), ScanBy(t, size, n));
      case Nothing =>
        PrefixScan(t, tok, n, size, i + 1);
    }
  }

  lemma PrefixTokensScan(s: string, a: string, t: nat -> Found, tok: nat -> Found, i: nat)
    requires i <= |a| <= |s| && Tokenizes(t, s) && Tokenizes(tok, a) && SamePrefix(t, tok, |a|)
    ensures Scan(s, i) == Scan(a, i) + Scan(s, |a|)
  {
    ScanIsScanBy(s, t, i);
    ScanIsScanBy(s, t, |a|);
    ScanIsScanBy(a, tok, i);
    PrefixScan(t, tok, |a|, |s|, i);
  }

  lemma OneTokenBeforeCut(a: string, b: string, t: nat -> Found, tok: nat -> Found, k: nat)
    requires Cuts(b) && k < |a| && Tokenizes(t, a + b) && Tokenizes(tok, a)
    ensures t(k) == tok(k) && (tok(k).Token? ==> k < tok(k).end <= |a|)
  {
    TokenBeforeCut(a, b, k);
  }

  /** Scanning splits at every such cut, the task-reference boundary test included. */
  lemma ScanSplit(a: string, b: string, i: nat)
    requires Cuts(b) && i <= |a|
    ensures Scan(a + b, i) == Scan(a, i) + Scan(b, 0)
  {
    var (t, tok) := (TokensOf(a + b), TokensOf(a));
    forall k: nat | k < |a|
      ensures t(k) == tok(k) && (tok(k).Token? ==> k < tok(k).end <= |a|)
    {
      OneTokenBeforeCut(a, b, t, tok, k);
    }
    PrefixTokensScan(a + b, a, t, tok, i);
    ScanAfterCut(a, b, 0);
  }

  /** Two texts joined by a blank are scanned apart. */
  lemma ScanJoin(a: string, space: char, b: string)
    requires IsSpace(space)
    ensures Scan(a + [space] + b, 0) == Scan(a, 0) + Scan(b, 0)
  {
    assert a + [space] + b == a + ([space] + b);
    ScanSplit(a, [space] + b, 0);
    ScanAfterCut([space], b, 0);
  }

  // ---------- what the scan finds, said without the scan ----------

  /** The identifiers that follow a sigil, one for every place from `i` on where a letter follows the
      sigil, each as long as it can be. */
  function Mentions(s: string, i: nat, sigil: char): seq<string>
    requires i <= |s|
    decreases |s| - i
  {
    if i == |s| then []
    else
      (if s[i] == sigil && i + 1 < |s| && IsAlpha(s[i + 1]) then [s[i + 1..RunEnd(s, i + 1, Ident)]] else [])
      + Mentions(s, i + 1, sigil)
  }

  lemma {:induction false} NoMentionBetween(s: string, i: nat, j: nat, sigil: char)
    requires i <= j <= |s| && forall k :: i <= k < j ==> s[k] != sigil
    ensures Mentions(s, i, sigil) == Mentions(s, j, sigil)
    decreases j - i
  {
    if i < j {
      NoMentionBetween(s, i + 1, j, sigil);
    }
  }

  /** No sigil hides in the identifier of a mention. */
  lemma MentionSpan(s: string, i: nat, own: char, sigil: char)
    requires i <= |s| && (own == '@' || own == '#') && (sigil == '@' || sigil == '#') && ParseMention(s, i, own).Match?
    ensures var p := ParseMention(s, i, own);
      Mentions(s, i, sigil) == (if own == sigil then [p.text] else []) + Mentions(s, p.end, sigil)
  {
    var end := ParseMention(s, i, own).end;
    forall k | i < k < end
      ensures s[k] != sigil
    {
      if k > i + 1 {
        RunIsOfClass(s, i + 2, Ident, k);
      }
    }
    NoMentionBetween(s, i + 1, end, sigil);
  }

  /** Nor in a task reference. */
  lemma TaskRefSpan(s: string, i: nat, sigil: char)
    requires i <= |s| && (sigil == '@' || sigil == '#') && ParseTaskRef(s, i).Match?
    ensures Mentions(s, i, sigil) == Mentions(s, ParseTaskRef(s, i).end, sigil)
  {
    forall k | i <= k < ParseTaskRef(s, i).end
      ensures s[k] != sigil
    {
      if k > i {
        TaskRefIsDigits(s, i, k);
      }
    }
    NoMentionBetween(s, i, ParseTaskRef(s, i).end, sigil);
  }

  /** The token at the head of a text hides no mention but itself. */
  lemma TokenMentions(s: string, i: nat, sigil: char)
    requires i < |s| && (sigil == '@' || sigil == '#') && TokenAt(s, i).Token?
    ensures var f := TokenAt(s, i);
      Mentions(s, i, sigil) ==
        (if sigil == '@' && f.element.Address? then [f.element.name]
         else if sigil == '#' && f.element.Tag? then [f.element.name] else []) + Mentions(s, f.end, sigil)
  {
    match TokenAt(s, i).element
    case Address(_) => MentionSpan(s, i, '@', sigil);
    case Tag(_) => MentionSpan(s, i, '#', sigil);
    case TaskRef(_) => TaskRefSpan(s, i, sigil);
  }

  /** The addresses of a scan are exactly the maximal identifiers after every `@` followed by a letter,
      in order, and the tags those after every `#`. */
  lemma {:induction false} ScanFindsMentions(s: string, i: nat)
    requires i <= |s|
    ensures Addresses(Scan(s, i)) == Mentions(s, i, '@')
    ensures Tags(Scan(s, i)) == Mentions(s, i, '#')
    decreases |s| - i
  {
    if i < |s| {
      match TokenAt(s, i)
      case Token(e, end) =>
        ScanFindsMentions(s, end);
        TokenMentions(s, i, '@');
        TokenMentions(s, i, '#');
        ListsSplit([e], Scan(s, end));
      case Nothing =>
        ScanFindsMentions(s, i + 1);
    }
  }

  /** `T`, a maximal run of digits, and a boundary. */
  predicate TaskRefAt(s: string, i: nat) {
    i < |s| && ParseTaskRef(s, i).Match? && IsTaskRefBoundary(s, ParseTaskRef(s, i).end)
  }

  /** Said without the parser: `T`, at least one digit, digits only, and then the end of the text or a
      character no identifier could go on with. */
  ghost predicate StandsAlone(s: string, i: nat, e: nat) {
    && i + 1 < e <= |s| && s[i] == 'T'
    && (forall k :: i < k < e ==> IsDigit(s[k]))
    && (e == |s| || !(IsAlpha(s[e]) || IsDigit(s[e]) || s[e] == '_' || s[e] == '-'))
  }

  lemma {:induction false} RunReaches(s: string, i: nat, k: CharClass, e: nat)
    requires i <= e <= |s| && (forall j :: i <= j < e ==> In(s[j], k)) && (e < |s| ==> !In(s[e], k))
    ensures RunEnd(s, i, k) == e
    decreases e - i
  {
    if i < e {
      RunReaches(s, i + 1, k, e);
    }
  }

  lemma TaskRefAtIff(s: string, i: nat)
    ensures TaskRefAt(s, i) <==> exists e :: StandsAlone(s, i, e)
    ensures TaskRefAt(s, i) ==>
      StandsAlone(s, i, ParseTaskRef(s, i).end) && ParseTaskRef(s, i).text == s[i..ParseTaskRef(s, i).end]
  {
    if TaskRefAt(s, i) {
      var end := ParseTaskRef(s, i).end;
      forall k | i < k < end
        ensures IsDigit(s[k])
      {
        TaskRefIsDigits(s, i, k);
      }
      assert StandsAlone(s, i, end);
    }
    if e :| StandsAlone(s, i, e) {
      RunReaches(s, i + 2, Digits, e);
    }
  }

  // ---------- the tokens on characters alone ----------

  /** A letter, and then letters, digits, hyphens and underscores as far as they go. */
  ghost predicate IsMaximalName(s: string, i: nat, e: nat) {
    && i < e <= |s| && ('a' <= s[i] <= 'z' || 'A' <= s[i] <= 'Z')
    && (forall k :: i < k < e ==>
          'a' <= s[k] <= 'z' || 'A' <= s[k] <= 'Z' || '0' <= s[k] <= '9' || s[k] == '-' || s[k] == '_')
    && (e < |s| ==>
          !('a' <= s[e] <= 'z' || 'A' <= s[e] <= 'Z' || '0' <= s[e] <= '9' || s[e] == '-' || s[e] == '_'))
  }

  /** A lower-case letter, and then lower-case letters, digits and hyphens as far as they go. */
  ghost predicate IsMaximalVerb(s: string, i: nat, e: nat) {
    && i < e <= |s| && 'a' <= s[i] <= 'z'
    && (forall k :: i < k < e ==> 'a' <= s[k] <= 'z' || '0' <= s[k] <= '9' || s[k] == '-')
    && (e < |s| ==> !('a' <= s[e] <= 'z' || '0' <= s[e] <= '9' || s[e] == '-'))
  }

  /** An address or a tag is its sigil and a maximal name; what is kept is the name. */
  lemma MentionIff(s: string, i: nat, sigil: char, e: nat)
    requires i <= |s|
    ensures ParseMention(s, i, sigil).Match? && ParseMention(s, i, sigil).end == e <==>
      i < |s| && s[i] == sigil && IsMaximalName(s, i + 1, e)
    ensures ParseMention(s, i, sigil).Match? ==>
      ParseMention(s, i, sigil).text == s[i + 1..ParseMention(s, i, sigil).end]
  {
    if i < |s| && s[i] == sigil && IsMaximalName(s, i + 1, e) {
      RunReaches(s, i + 2, Ident, e);
    }
    if ParseMention(s, i, sigil).Match? && ParseMention(s, i, sigil).end == e {
      forall k | i + 2 <= k < e
        ensures In(s[k], Ident)
      {
        RunIsOfClass(s, i + 2, Ident, k);
      }
    }
  }

  /** A directive is a slash and a maximal verb; what is kept is the verb. */
  lemma DirectiveAtIff(s: string, i: nat, e: nat)
    requires i <= |s|
    ensures ParseDirective(s, i).Match? && ParseDirective(s, i).end == e <==>
      i < |s| && s[i] == '/' && IsMaximalVerb(s, i + 1, e)
    ensures ParseDirective(s, i).Match? ==> ParseDirective(s, i).text == s[i + 1..ParseDirective(s, i).end]
  {
    if i < |s| && s[i] == '/' && IsMaximalVerb(s, i + 1, e) {
      RunReaches(s, i + 2, Verb, e);
    }
    if ParseDirective(s, i).Match? && ParseDirective(s, i).end == e {
      forall k | i + 2 <= k < e
        ensures In(s[k], Verb)
      {
        RunIsOfClass(s, i + 2, Verb, k);
      }
    }
  }

  /** The blanks are Unicode's 25 White_Space characters. */
  lemma BlankIff(c: char)
    ensures IsSpace(c) <==> c as int in [0x09, 0x0A, 0x0B, 0x0C, 0x0D, 0x20, 0x85, 0xA0, 0x1680, 0x2000, 0x2001, 0x2002,
      0x2003, 0x2004, 0x2005, 0x2006, 0x2007, 0x2008, 0x2009, 0x200A, 0x2028, 0x2029, 0x202F, 0x205F, 0x3000]
  {
  }

  // ---------- where a task reference may stand ----------

  /** The place lies inside an identifier that a sigil and a letter began: it continues one, or is
      the letter itself. */
  predicate InsideMention(s: string, i: nat) {
    0 < i < |s| && In(s[i], Ident)
    && (InsideMention(s, i - 1) || ((s[i - 1] == '@' || s[i - 1] == '#') && IsAlpha(s[i])))
  }

  /** The task references from a place on: every one that does not stand inside a mention. */
  function TaskRefsFrom(s: string, i: nat): seq<string>
    requires i <= |s|
    decreases |s| - i
  {
    if i == |s| then []
    else
      (if TaskRefAt(s, i) && !InsideMention(s, i) then [ParseTaskRef(s, i).text] else []) + TaskRefsFrom(s, i + 1)
  }

  lemma {:induction false} NoTaskRefsBetween(s: string, i: nat, j: nat)
    requires i <= j <= |s|
    requires forall k {:trigger TaskRefAt(s, k)} :: i <= k < j ==> !TaskRefAt(s, k) || InsideMention(s, k)
    ensures TaskRefsFrom(s, i) == TaskRefsFrom(s, j)
    decreases j - i
  {
    if i < j {
      NoTaskRefsBetween(s, i + 1, j);
    }
  }

  /** Every character of a mention's identifier is inside it. */
  lemma {:induction false} MentionReaches(s: string, i: nat, k: nat)
    requires i + 1 < |s| && (s[i] == '@' || s[i] == '#') && IsAlpha(s[i + 1])
    requires i < k < RunEnd(s, i + 2, Ident)
    ensures InsideMention(s, k)
    decreases k
  {
    if k > i + 1 {
      MentionReaches(s, i, k - 1);
      RunIsOfClass(s, i + 2, Ident, k);
    }
  }

  /** A place right after characters that are no sigil is outside every mention if they were. */
  lemma {:induction false} StaysOutside(s: string, i: nat, j: nat)
    requires i <= j <= |s| && !InsideMention(s, i)
    requires forall k :: i <= k < j ==> !(s[k] == '@' || s[k] == '#')
    ensures !InsideMention(s, j)
    decreases j
  {
    if i < j {
      StaysOutside(s, i, j - 1);
    }
  }

  lemma TaskRefIsDigits(s: string, i: nat, k: nat)
    requires i < |s| && ParseTaskRef(s, i).Match? && i < k < ParseTaskRef(s, i).end
    ensures IsDigit(s[k])
  {
    if k > i + 1 {
      RunIsOfClass(s, i + 2, Digits, k);
    }
  }

  lemma TaskTokenStep(s: string, i: nat)
    requires TaskRefAt(s, i) && !InsideMention(s, i)
    ensures var task := ParseTaskRef(s, i);
      !InsideMention(s, task.end) && TaskRefsFrom(s, i) == [task.text] + TaskRefsFrom(s, task.end)
  {
    var end := ParseTaskRef(s, i).end;
    forall k | i < k < end
      ensures IsDigit(s[k])
    {
      TaskRefIsDigits(s, i, k);
    }
    StaysOutside(s, i, end);
    NoTaskRefsBetween(s, i + 1, end);
  }

  lemma MentionTokenStep(s: string, i: nat, sigil: char)
    requires i < |s| && (sigil == '@' || sigil == '#') && ParseMention(s, i, sigil).Match?
    ensures var end := ParseMention(s, i, sigil).end;
      !InsideMention(s, end) && TaskRefsFrom(s, i) == TaskRefsFrom(s, end)
  {
    var end := ParseMention(s, i, sigil).end;
    forall k | i < k < end
      ensures InsideMention(s, k)
    {
      MentionReaches(s, i, k);
    }
    NoTaskRefsBetween(s, i, end);
  }

  /** Past a token the scan again stands outside every mention, and passed no other task reference. */
  lemma TokenStep(s: string, i: nat)
    requires i < |s| && !InsideMention(s, i) && TokenAt(s, i).Token?
    ensures var f := TokenAt(s, i);
      && !InsideMention(s, f.end)
      && TaskRefsFrom(s, i) == (if f.element.TaskRef? then [f.element.id] else []) + TaskRefsFrom(s, f.end)
  {
    match TokenAt(s, i).element
    case Address(_) => MentionTokenStep(s, i, '@');
    case Tag(_) => MentionTokenStep(s, i, '#');
    case TaskRef(_) => TaskTokenStep(s, i);
  }

  lemma {:induction false} ScanFindsTaskRefsFrom(s: string, i: nat)
    requires i <= |s| && !InsideMention(s, i)
    ensures TaskRefs(Scan(s, i)) == TaskRefsFrom(s, i)
    decreases |s| - i
  {
    if i < |s| {
      match TokenAt(s, i)
      case Token(e, end) =>
        ListsSplit([e], Scan(s, end));
        TokenStep(s, i);
        ScanFindsTaskRefsFrom(s, end);
      case Nothing =>
        ScanFindsTaskRefsFrom(s, i + 1);
    }
  }

  /** The task references of a text are exactly, in order, the `T` and maximal digit run of every
      place that passes the boundary test and does not stand inside a mention. */
  lemma ScanFindsTaskRefs(s: string)
    ensures TaskRefs(Scan(s, 0)) == TaskRefsFrom(s, 0)
  {
    ScanFindsTaskRefsFrom(s, 0);
  }

  lemma DigitsAfterT()
    ensures var s := "FOOT12"; TaskRefAt(s, 3) && ParseTaskRef(s, 3) == Match(6, "T12")
  {
    var s := "FOOT12";
    RunReaches(s, 5, Digits, 6);
    assert s[3..6] == "T12";
  }

  /** No left boundary is asked for: digits after the `T` of a longer word count. */
  lemma NoLeftBoundary()
    ensures TaskRefs(Scan("FOOT12", 0)) == ["T12"]
  {
    var s := "FOOT12";
    ScanFindsTaskRefs(s);
    DigitsAfterT();
    StaysOutside(s, 0, 3);
    NoTaskRefsBetween(s, 0, 3);
    TaskTokenStep(s, 3);
    assert TaskRefsFrom(s, 6) == [];
  }
}
