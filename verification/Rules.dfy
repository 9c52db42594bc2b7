/** What the route index reads off a rule (internal/config/routes.go, host_util.go): the host
    it names and the path it asks for. */
module Rules {
  import opened Wrappers

  // ----- The string functions it uses -----

  /** strings.Index. */
  function IndexOf(s: string, sub: string): (i: Option<nat>)
    ensures i.Some? ==> i.value + |sub| <= |s| && s[i.value..i.value + |sub|] == sub
  {
    if |s| < |sub| then None
    else if s[..|sub|] == sub then Some(0)
    else if s == "" then None
    else
      match IndexOf(s[1..], sub)
      case None => None
      case Some(i) => assert s[1..][i..i + |sub|] == s[i + 1..i + 1 + |sub|]; Some(i + 1)
  }

  predicate Contains(s: string, sub: string) {
    IndexOf(s, sub).Some?
  }

  /** strings.Count of a text that is not empty. */
  function Count(s: string, sub: string): nat
    requires sub != ""
    decreases |s|
  {
    match IndexOf(s, sub)
    case None => 0
    case Some(i) => 1 + Count(s[i + |sub|..], sub)
  }

  function LowerChar(c: char): char {
    if 'A' <= c <= 'Z' then (c as int + 32) as char else c
  }

  /** strings.ToLower of ASCII text. */
  function ToLower(s: string): (t: string)
    ensures |t| == |s|
  {
    if s == "" then "" else [LowerChar(s[0])] + ToLower(s[1..])
  }

  predicate HasPrefix(s: string, p: string) {
    p <= s
  }

  // ----- Hosts -----

  /** stripRootLabel: the trailing dot of a fully-qualified name. */
  function StripRootLabel(h: string): string {
    if |h| > 1 && h[|h| - 1] == '.' then h[..|h| - 1] else h
  }

  function NormalizeHost(h: string): string {
    ToLower(StripRootLabel(h))
  }

  function RouteHostIsExact(h: string): bool {
    h != "" && !HasPrefix(ToLower(h), "*.")
  }

  lemma {:induction false} LowerTwice(s: string)
    ensures ToLower(ToLower(s)) == ToLower(s)
  {
    if s != "" { LowerTwice(s[1..]); }
  }

  lemma {:induction false} LowerAt(s: string, i: nat)
    requires i < |s|
    ensures ToLower(s)[i] == LowerChar(s[i]) && ToLower(s)[..i] == ToLower(s[..i])
  {
    if i > 0 {
      LowerAt(s[1..], i - 1);
      assert s[..i] == [s[0]] + s[1..][..i - 1];
      assert s[..i][1..] == s[1..][..i - 1];
    }
  }

  /** The same letter, whatever its case, or the same other character. */
  predicate SameLetter(c: char, d: char) {
    || c == d
    || ('A' <= c <= 'Z' && 'a' <= d <= 'z' && c as int - 'A' as int == d as int - 'a' as int)
    || ('a' <= c <= 'z' && 'A' <= d <= 'Z' && c as int - 'a' as int == d as int - 'A' as int)
  }

  predicate SameLetters(s: string, t: string) {
    |s| == |t| && forall i :: 0 <= i < |s| ==> SameLetter(s[i], t[i])
  }

  /** Lower case forgets the case of letters and nothing else, and leaves no capital. */
  lemma {:induction false} LowerExactlyWhen(s: string, t: string)
    ensures ToLower(s) == ToLower(t) <==> SameLetters(s, t)
    ensures SameLetters(s, ToLower(s)) && forall c :: c in ToLower(s) ==> !('A' <= c <= 'Z')
  {
    if s != "" {
      LowerExactlyWhen(s[1..], if t == "" then "" else t[1..]);
      assert s == [s[0]] + s[1..] && (t == "" || t == [t[0]] + t[1..]);
      assert |s| == |t| ==> (ToLower(s) == ToLower(t) <==>
                             LowerChar(s[0]) == LowerChar(t[0]) && ToLower(s[1..]) == ToLower(t[1..])) by {
        if |s| == |t| {
          assert ToLower(s)[0] == LowerChar(s[0]) && ToLower(t)[0] == LowerChar(t[0]);
          assert ToLower(s)[1..] == ToLower(s[1..]) && ToLower(t)[1..] == ToLower(t[1..]);
        }
      }
    }
  }

  /** One host, one key: the fully-qualified spelling and the case do not matter. */
  lemma SpellingsShareAKey(h: string)
    ensures h != "" && h[|h| - 1] != '.' ==> NormalizeHost(h + ".") == NormalizeHost(h)
    ensures NormalizeHost(ToLower(h)) == NormalizeHost(h)
  {
    assert h != "" ==> (h + ".")[..|h|] == h;
    LowerTwice(h);
    if |h| > 1 {
      LowerAt(h, |h| - 1);
      LowerTwice(h[..|h| - 1]);
    }
  }

  /** And no two hosts share one otherwise. */
  lemma KeysAgreeExactlyWhen(h: string, k: string)
    requires h == "" || h[|h| - 1] != '.'
    requires k == "" || k[|k| - 1] != '.'
    ensures NormalizeHost(h) == NormalizeHost(k) <==> SameLetters(h, k)
  {
    LowerExactlyWhen(h, k);
    hide ToLower;
  }

  /** The text between `head` and `tail`, when there is some. */
  function Between(rule: string, head: string, tail: string): Option<string> {
    match IndexOf(rule, head)
    case None => None
    case Some(i) =>
      var rest := rule[i + |head|..];
      match IndexOf(rest, tail)
      case None => None
      case Some(end) => if end > 0 then Some(rest[..end]) else None
  }

  /** hostFromRule: the first host in backquotes, or else in double quotes. */
  function HostFromRule(rule: string): string {
    match Between(rule, "Host(`", "`)")
    case Some(h) => ToLower(h)
    case None =>
      match Between(rule, "Host(\"", "\")")
      case Some(h) => ToLower(h)
      case None => ""
  }

  // ----- Paths -----

  datatype PathInfo = PathInfo(path: string, isPrefix: bool, isRegex: bool)

  function QuotedPath(rule: string, q: string): Option<PathInfo> {
    match Between(rule, "PathPrefix(" + q, q + ")")
    case Some(p) => Some(PathInfo(p, true, false))
    case None =>
      match Between(rule, "PathRegex(" + q, q + ")")
      case Some(p) => Some(PathInfo(p, false, true))
      case None =>
        match Between(rule, "Path(" + q, q + ")")
        case Some(p) => Some(PathInfo(p, false, false))
        case None => None
  }

  /** rulePathInfo. */
  function RulePathInfo(rule: string): PathInfo {
    if Contains(rule, "||") || Contains(rule, "!") then PathInfo("/", true, true)
    else if Count(rule, "Path(") + Count(rule, "PathPrefix(") + Count(rule, "PathRegex(") > 1
        then PathInfo("/", true, true)
    else
      match QuotedPath(rule, "`")
      case Some(info) => info
      case None =>
        match QuotedPath(rule, "\"")
        case Some(info) => info
        case None => PathInfo("/", true, false)
  }

  // ----- What is found where -----

  predicate MatchAt(s: string, sub: string, i: nat) {
    i + |sub| <= |s| && s[i..i + |sub|] == sub
  }

  lemma MatchShift(s: string, sub: string, d: nat, i: nat)
    requires d <= |s|
    ensures MatchAt(s[d..], sub, i) <==> MatchAt(s, sub, i + d)
  {
    if i + d + |sub| <= |s| { assert s[d..][i..i + |sub|] == s[i + d..i + d + |sub|]; }
  }

  /** IndexOf gives the first place a text is found, and none only if it is nowhere. */
  lemma {:induction false} IndexOfExactly(s: string, sub: string)
    ensures IndexOf(s, sub).None? <==> forall i: nat :: !MatchAt(s, sub, i)
    ensures IndexOf(s, sub).Some? ==>
              && MatchAt(s, sub, IndexOf(s, sub).value)
              && forall i: nat :: i < IndexOf(s, sub).value ==> !MatchAt(s, sub, i)
    decreases |s|
  {
    if |s| >= |sub| && s[..|sub|] == sub {
      assert MatchAt(s, sub, 0);
    } else if |s| >= |sub| && s != "" {
      IndexOfExactly(s[1..], sub);
      forall i: nat | i > 0 ensures MatchAt(s, sub, i) <==> MatchAt(s[1..], sub, i - 1) {
        MatchShift(s, sub, 1, i - 1);
      }
      assert !MatchAt(s, sub, 0);
      forall i: nat ensures MatchAt(s[1..], sub, i) <==> MatchAt(s, sub, i + 1) { MatchShift(s, sub, 1, i); }
    }
  }

  lemma FoundAt(s: string, sub: string, k: nat)
    requires MatchAt(s, sub, k) && forall i: nat :: i < k ==> !MatchAt(s, sub, i)
    ensures IndexOf(s, sub) == Some(k)
  {
    IndexOfExactly(s, sub);
    hide IndexOf;
  }

  lemma NotFound(s: string, sub: string, c: char)
    requires c in sub && c !in s
    ensures forall i: nat :: !MatchAt(s, sub, i)
    ensures IndexOf(s, sub) == None
  {
    forall i: nat ensures !MatchAt(s, sub, i) {
      if i + |sub| <= |s| {
        var k :| 0 <= k < |sub| && sub[k] == c;
        assert s[i..i + |sub|][k] == s[i + k];
      }
    }
    IndexOfExactly(s, sub);
    hide IndexOf;
  }

  /** The text between `head` and the first `quote` after it, when there is some. */
  lemma BetweenIs(rule: string, head: string, quote: char, text: string, at: nat, rest: string)
    requires IndexOf(rule, head) == Some(at) && rule[at + |head|..] == text + [quote, ')'] + rest
    requires quote !in text
    ensures Between(rule, head, [quote, ')']) == if text == "" then None else Some(text)
  {
    hide IndexOf;
    QuoteEndsText(text, quote, rest);
    assert rule[at + |head|..][..|text|] == text;
  }

  lemma QuoteEndsText(text: string, quote: char, rest: string)
    requires quote !in text
    ensures IndexOf(text + [quote, ')'] + rest, [quote, ')']) == Some(|text|)
  {
    var tail, end := text + [quote, ')'] + rest, [quote, ')'];
    assert tail[|text|..|text| + 2] == end;
    forall i: nat | i < |text| ensures !MatchAt(tail, end, i) {
      assert i + 2 <= |tail| && tail[i..i + 2][0] == text[i] && end[0] == quote;
    }
    FoundAt(tail, end, |text|);
  }

  // ----- Rules in full -----

  datatype Matcher = ByPrefix | ByRegex | ByPath

  function CallOf(m: Matcher): string {
    match m
    case ByPrefix => "PathPrefix("
    case ByRegex => "PathRegex("
    case ByPath => "Path("
  }

  /** What is written in a rule as one name or path: with no quote, bracket or operator. */
  predicate IsPlain(s: string) {
    '`' !in s && '"' !in s && '(' !in s && '|' !in s && '!' !in s
  }

  predicate IsQuote(q: char) {
    q == '`' || q == '"'
  }

  function Quoted(q: char, p: string): string {
    [q] + p + [q, ')']
  }

  function HostPart(q: char, h: string): string {
    "Host(" + Quoted(q, h)
  }

  function PathPart(m: Matcher, q: char, p: string): string {
    CallOf(m) + Quoted(q, p)
  }

  lemma QuotedIsPlain(q: char, p: string)
    requires IsPlain(p) && IsQuote(q)
    ensures '(' !in Quoted(q, p) && '|' !in Quoted(q, p) && '!' !in Quoted(q, p)
  {
  }

  /** Before the path matcher a rule may have a host: every call there is of Host. */
  predicate IsFront(pre: string) {
    && '|' !in pre && '!' !in pre
    && forall k :: 0 <= k < |pre| && pre[k] == '(' ==> k > 0 && pre[k - 1] == 't'
  }

  lemma HostIsFront(q: char, h: string)
    requires IsPlain(h) && IsQuote(q)
    ensures IsFront(HostPart(q, h) + " && ") && IsFront("")
  {
    var text, pre := Quoted(q, h), HostPart(q, h) + " && ";
    QuotedIsPlain(q, h);
    hide Quoted;
    assert pre[..5] == "Host(" && pre[5..5 + |text|] == text && pre[5 + |text|..] == " && ";
    forall k | 0 <= k < |pre| ensures pre[k] != '|' && pre[k] != '!' && (pre[k] == '(' ==> k == 4) {
      if 5 <= k < 5 + |text| { assert pre[k] == text[k - 5]; }
    }
    assert pre[3] == 't';
  }

  /** The character two before its bracket tells which a call is, and the one before it is no t. */
  lemma CallsDiffer(m: Matcher, w: Matcher)
    ensures var a, b := CallOf(m), CallOf(w);
            && |a| >= 5 && a[|a| - 1] == '(' && a[|a| - 2] != 't' && (m != w ==> a[|a| - 3] != b[|b| - 3])
            && forall k :: 0 <= k < |a| - 1 ==> a[k] != '('
  {
  }

  /** A call is found in a rule with one path matcher only where that is, and only if it is that. */
  lemma OneCall(pre: string, m: Matcher, tail: string, w: Matcher, i: nat)
    requires IsFront(pre) && '(' !in tail
    ensures MatchAt(pre + CallOf(m) + tail, CallOf(w), i) <==> m == w && i == |pre|
  {
    var rule, a, b := pre + CallOf(m) + tail, CallOf(m), CallOf(w);
    CallsDiffer(m, w);
    CallsDiffer(w, m);
    hide CallOf;
    if m == w && i == |pre| {
      assert rule[i..i + |b|] == b;
    } else if i + |b| <= |rule| {
      var end := i + |b| - 1;
      var found := rule[i..i + |b|];
      assert found[|b| - 1] == rule[end] && found[|b| - 2] == rule[end - 1] && found[|b| - 3] == rule[end - 2];
      RuleEndsCall(pre, a, tail, end);
    }
  }

  /** Where a bracket after something other than t is, in such a rule: at the end of the call. */
  lemma RuleEndsCall(pre: string, call: string, tail: string, end: nat)
    requires IsFront(pre) && '(' !in tail && |call| >= 5 && forall k :: 0 <= k < |call| - 1 ==> call[k] != '('
    requires 2 <= end < |pre + call + tail|
    ensures var rule := pre + call + tail;
            rule[end] == '(' && rule[end - 1] != 't' ==>
              end == |pre| + |call| - 1 && rule[end - 2] == call[|call| - 3]
  {
    var rule := pre + call + tail;
    if end < |pre| {
      assert rule[end] == pre[end] && rule[end - 1] == pre[end - 1];
    } else if end < |pre| + |call| {
      assert rule[end] == call[end - |pre|];
    } else {
      assert rule[end] == tail[end - |pre| - |call|];
    }
  }

  /** How often the call of each matcher is counted in such a rule. */
  lemma OneIsCounted(pre: string, m: Matcher, tail: string, w: Matcher)
    requires IsFront(pre) && '(' !in tail
    ensures CallOf(w) != "" && Count(pre + CallOf(m) + tail, CallOf(w)) == if m == w then 1 else 0
  {
    var rule := pre + CallOf(m) + tail;
    CallsDiffer(w, m);
    forall i: nat ensures MatchAt(rule, CallOf(w), i) <==> m == w && i == |pre| { OneCall(pre, m, tail, w, i); }
    assert '(' in CallOf(w);
    hide CallOf;
    IndexOfExactly(rule, CallOf(w));
    if m == w {
      assert MatchAt(rule, CallOf(w), |pre|);
      assert rule[|pre| + |CallOf(w)|..] == tail;
      NotFound(tail, CallOf(w), '(');
    }
  }

  lemma PlainRule(pre: string, m: Matcher, q: char, p: string)
    requires IsFront(pre) && IsPlain(p) && IsQuote(q)
    ensures var rule := pre + PathPart(m, q, p);
            !Contains(rule, "||") && !Contains(rule, "!")
            && Count(rule, "Path(") + Count(rule, "PathPrefix(") + Count(rule, "PathRegex(") == 1
  {
    var tail := Quoted(q, p);
    QuotedIsPlain(q, p);
    hide Quoted;
    var rule := pre + PathPart(m, q, p);
    assert rule == pre + CallOf(m) + tail;
    assert '|' !in CallOf(m) && '!' !in CallOf(m);
    hide CallOf;
    assert '|' !in rule && '!' !in rule;
    NotFound(rule, "||", '|');
    NotFound(rule, "!", '!');
    OneIsCounted(pre, m, tail, ByPath);
    OneIsCounted(pre, m, tail, ByPrefix);
    OneIsCounted(pre, m, tail, ByRegex);
    CallsAre();
    hide IndexOf, Count;
  }

  lemma CallsAre()
    ensures CallOf(ByPrefix) == "PathPrefix(" && CallOf(ByRegex) == "PathRegex(" && CallOf(ByPath) == "Path("
  {
  }

  /** The one matcher's path is found, under its own quotes, and no other's. */
  lemma QuotedIs(pre: string, m: Matcher, q: char, p: string, w: Matcher, r: char)
    requires IsFront(pre) && IsPlain(p) && IsQuote(q)
    ensures Between(pre + PathPart(m, q, p), CallOf(w) + [r], [r] + ")")
            == if m == w && q == r && p != "" then Some(p) else None
  {
    QuotedIsPlain(q, p);
    hide Quoted, CallOf, MatchAt, IndexOf;
    var tail := Quoted(q, p);
    var rule, head := pre + PathPart(m, q, p), CallOf(w) + [r];
    assert rule == pre + CallOf(m) + tail;
    HeadIsThere(pre, CallOf(m), q, p, r);
    forall i: nat | !(m == w && i == |pre|) ensures !MatchAt(rule, head, i) {
      OneCall(pre, m, tail, w, i);
      HeadNeedsCall(rule, CallOf(w), [r], i);
    }
    if m == w && q == r {
      FoundAt(rule, head, |pre|);
      assert [r] + ")" == [q, ')'];
      BetweenIs(rule, head, q, p, |pre|, "");
    } else {
      IndexOfExactly(rule, head);
    }
  }

  lemma HeadIsThere(pre: string, call: string, q: char, p: string, r: char)
    ensures var rule, head := pre + call + Quoted(q, p), call + [r];
            && (MatchAt(rule, head, |pre|) <==> q == r)
            && rule[|pre| + |head|..] == p + [q, ')'] + ""
  {
    var rule, head := pre + call + Quoted(q, p), call + [r];
    assert rule[|pre|..|pre| + |head|] == call + [q];
    assert (call + [q])[|call|] == q && head[|call|] == r;
  }

  lemma HeadNeedsCall(s: string, call: string, more: string, i: nat)
    ensures MatchAt(s, call + more, i) ==> MatchAt(s, call, i)
  {
    if MatchAt(s, call + more, i) {
      assert s[i..i + |call|] == s[i..i + |call + more|][..|call|];
    }
  }

  /** What a rule with one path matcher, after a host or nothing, says of the path; an empty one says
      nothing. */
  lemma PathOfRule(pre: string, m: Matcher, q: char, p: string)
    requires IsFront(pre) && IsPlain(p) && IsQuote(q)
    ensures RulePathInfo(pre + PathPart(m, q, p))
            == if p == "" then PathInfo("/", true, false) else PathInfo(p, m == ByPrefix, m == ByRegex)
  {
    assert q == '`' || q == '"';
    hide *;
    PlainRule(pre, m, q, p);
    var rule := pre + PathPart(m, q, p);
    forall w, r
      ensures Between(rule, CallOf(w) + [r], [r] + ")") == if m == w && q == r && p != "" then Some(p) else None
    {
      QuotedIs(pre, m, q, p, w, r);
    }
    QuotedPathFrom(rule, m, q, p, '`');
    QuotedPathFrom(rule, m, q, p, '"');
    PlainRuleInfo(rule);
  }

  lemma QuotedPathFrom(rule: string, m: Matcher, q: char, p: string, r: char)
    requires forall w :: Between(rule, CallOf(w) + [r], [r] + ")")
                         == if m == w && q == r && p != "" then Some(p) else None
    ensures QuotedPath(rule, [r])
            == if q == r && p != "" then Some(PathInfo(p, m == ByPrefix, m == ByRegex)) else None
  {
    hide Between;
    CallsAre();
  }

  lemma PlainRuleInfo(rule: string)
    requires !Contains(rule, "||") && !Contains(rule, "!")
    requires Count(rule, "Path(") + Count(rule, "PathPrefix(") + Count(rule, "PathRegex(") <= 1
    ensures RulePathInfo(rule) ==
            if QuotedPath(rule, ['`']).Some? then QuotedPath(rule, ['`']).value
            else if QuotedPath(rule, ['"']).Some? then QuotedPath(rule, ['"']).value
            else PathInfo("/", true, false)
  {
    hide Contains, Count, QuotedPath;
    assert "`" == ['`'] && "\"" == ['"'];
  }

  /** A rule that speaks of no path matches every path. */
  lemma RuleWithoutPath(rule: string)
    requires 'P' !in rule && '|' !in rule && '!' !in rule
    ensures RulePathInfo(rule) == PathInfo("/", true, false)
  {
    NotFound(rule, "||", '|');
    NotFound(rule, "!", '!');
    NotFound(rule, "Path(", 'P');
    NotFound(rule, "PathPrefix(", 'P');
    NotFound(rule, "PathRegex(", 'P');
    assert Count(rule, "Path(") + Count(rule, "PathPrefix(") + Count(rule, "PathRegex(") == 0;
    forall r, w ensures Between(rule, CallOf(w) + [r], [r] + ")") == None {
      assert 'P' in CallOf(w);
      NotFound(rule, CallOf(w) + [r], 'P');
    }
    CallsAre();
    hide IndexOf, Between, Count, Contains, CallOf;
    assert QuotedPath(rule, ['`']) == None && QuotedPath(rule, ['"']) == None;
    PlainRuleInfo(rule);
  }

  lemma {:induction false} CountsTwo(s: string, sub: string, i: nat, j: nat)
    requires sub != "" && MatchAt(s, sub, i)
    ensures Count(s, sub) >= 1
    ensures MatchAt(s, sub, j) && i + |sub| <= j ==> Count(s, sub) >= 2
  {
    IndexOfExactly(s, sub);
    if MatchAt(s, sub, j) && i + |sub| <= j {
      var k := IndexOf(s, sub).value;
      MatchShift(s, sub, k + |sub|, j - k - |sub|);
      IndexOfExactly(s[k + |sub|..], sub);
    }
    hide IndexOf;
  }

  /** A rule with an alternative, a negation or a second path matcher is left to be tried on every
      request. */
  lemma ComplexRule(rule: string, m: Matcher, i: nat, w: Matcher, j: nat)
    requires || MatchAt(rule, "||", i) || MatchAt(rule, "!", i)
             || (MatchAt(rule, CallOf(m), i) && MatchAt(rule, CallOf(w), j) && (m != w || i + |CallOf(m)| <= j))
    ensures RulePathInfo(rule) == PathInfo("/", true, true)
  {
    CallsAre();
    IndexOfExactly(rule, "||");
    IndexOfExactly(rule, "!");
    if MatchAt(rule, CallOf(m), i) && MatchAt(rule, CallOf(w), j) {
      CountsTwo(rule, CallOf(m), i, j);
      CountsTwo(rule, CallOf(w), j, j);
    }
    hide IndexOf, QuotedPath, CallOf;
  }

  /** What a rule that begins with a host says of it. */
  lemma HostOfRule(q: char, h: string, rest: string)
    requires IsPlain(h) && (q == '`' || (q == '"' && '`' !in rest)) && (h != "" || rest == "")
    ensures HostFromRule(HostPart(q, h) + rest) == ToLower(h)
  {
    var rule, head := HostPart(q, h) + rest, "Host(" + [q];
    assert rule[0..6] == head;
    FoundAt(rule, head, 0);
    assert rule[6..] == h + [q, ')'] + rest;
    BetweenIs(rule, head, q, h, 0, rest);
    assert "Host(`" == "Host(" + ['`'] && "Host(\"" == "Host(" + ['"'] && "`)" == ['`', ')'] && "\")" == ['"', ')'];
    if q == '"' {
      assert '`' !in rule;
      NotFound(rule, "Host(`", '`');
    } else if h == "" {
      NotFound(rule, "Host(\"", '"');
    }
    hide IndexOf, ToLower, HostPart;
  }

  /** A rule that names no host has none, and a name is exact unless it begins with "*.". */
  lemma HostlessRule(rule: string, h: string)
    ensures 'H' !in rule ==> HostFromRule(rule) == ""
    ensures RouteHostIsExact(h) <==> h != "" && !(|h| >= 2 && h[0] == '*' && h[1] == '.')
  {
    if 'H' !in rule {
      NotFound(rule, "Host(`", 'H');
      NotFound(rule, "Host(\"", 'H');
    }
    hide IndexOf;
    if |h| >= 2 {
      LowerAt(h, 0);
      LowerAt(h, 1);
    }
    hide ToLower;
  }

  /** A path matcher alone names no host. */
  lemma PathPartHasNoHost(m: Matcher, q: char, p: string)
    requires IsPlain(p) && IsQuote(q)
    ensures HostFromRule(PathPart(m, q, p)) == ""
  {
    var rule := PathPart(m, q, p);
    assert "Host(`" == "Host(" + ['`'] && "Host(\"" == "Host(" + ['"'];
    CallsDiffer(m, m);
    QuotedIsPlain(q, p);
    hide CallOf, Quoted, IndexOf;
    NoHostCall(CallOf(m), Quoted(q, p), '`');
    NoHostCall(CallOf(m), Quoted(q, p), '"');
  }

  lemma NoHostCall(call: string, text: string, r: char)
    requires |call| >= 5 && call[|call| - 2] != 't' && '(' !in text
    requires forall k :: 0 <= k < |call| - 1 ==> call[k] != '('
    ensures IndexOf(call + text, "Host(" + [r]) == None
  {
    var rule, head := call + text, "Host(" + [r];
    assert head[3] == 't' && head[4] == '(' && |head| == 6;
    forall i: nat ensures !MatchAt(rule, head, i) {
      if i + |head| <= |rule| {
        assert rule[i + 3] == rule[i..i + |head|][3] && rule[i + 4] == rule[i..i + |head|][4];
        assert i + 4 >= |call| ==> rule[i + 4] == text[i + 4 - |call|];
      }
    }
    IndexOfExactly(rule, head);
    hide IndexOf, MatchAt;
  }
}
