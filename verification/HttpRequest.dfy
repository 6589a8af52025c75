/** src/http/httprequest.cc: the line-driven request parser. The unread part of the buffer is a string; the
    database check of a login form is an argument. */
module HttpRequests {
  import opened CppArithmetic
  import FormDecoding

  type Headers = seq<(string, string)>

  datatype Option<T> = None | Some(value: T)

  // ---------------------------------------------------------------- lines

  const CRLF: string := "\r\n"

  predicate BreakAt(s: string, k: nat) {
    k + 2 <= |s| && s[k] == '\r' && s[k + 1] == '\n'
  }

  function FindFrom(s: string, i: nat): (k: nat)
    requires i <= |s|
    ensures i <= k <= |s| && (k < |s| ==> BreakAt(s, k))
    ensures forall m: nat | i <= m < k :: !BreakAt(s, m)
    decreases |s| - i
  {
    if i == |s| || BreakAt(s, i) then i else FindFrom(s, i + 1)
  }

  /** std::search for CRLF: the index of the first one, or the length. */
  function FindCrlf(s: string): (k: nat)
    ensures k <= |s| && (k < |s| ==> BreakAt(s, k))
    ensures forall m: nat | m < k :: !BreakAt(s, m)
  {
    FindFrom(s, 0)
  }

  predicate OneLine(s: string) {
    '\r' !in s && '\n' !in s
  }

  /** A sequence of CRLF-terminated lines and nothing else. */
  ghost predicate WholeLines(s: string)
    decreases |s|
  {
    s == "" || (FindCrlf(s) < |s| && WholeLines(s[FindCrlf(s) + 2..]))
  }

  lemma FindInLine(line: string, rest: string)
    requires OneLine(line)
    ensures FindCrlf(line + (CRLF + rest)) == |line|
  {
    var s := line + (CRLF + rest);
    assert BreakAt(s, |line|);
    forall m: nat | m < |line|
      ensures !BreakAt(s, m)
    {
      assert s[m] == line[m];
    }
  }

  // ---------------------------------------------------------------- the two regular expressions

  function IndexFrom(s: string, c: char, i: nat): (k: nat)
    requires i <= |s|
    ensures i <= k <= |s| && (forall m | i <= m < k :: s[m] != c) && (k < |s| ==> s[k] == c)
    decreases |s| - i
  {
    if i == |s| || s[i] == c then i else IndexFrom(s, c, i + 1)
  }

  function IndexOf(s: string, c: char): (k: nat)
    ensures k <= |s| && (forall m | 0 <= m < k :: s[m] != c) && (k < |s| ==> s[k] == c)
  {
    IndexFrom(s, c, 0)
  }

  /** The parts before and after the first `c`. */
  function SplitAt(s: string, c: char): Option<(string, string)> {
    var k := IndexOf(s, c);
    if k == |s| then None else Some((s[..k], s[k + 1..]))
  }

  lemma Cut(a: string, c: char, b: string)
    ensures var s := a + ([c] + b); s[|a|] == c && s[..|a|] == a && s[|a| + 1..] == b
    ensures forall m | 0 <= m < |a| :: (a + ([c] + b))[m] == a[m]
  {
  }

  lemma Glue(s: string, k: nat)
    requires k < |s|
    ensures s == s[..k] + ([s[k]] + s[k + 1..])
  {
  }

  lemma SplitAtIff(s: string, c: char, a: string, b: string)
    ensures SplitAt(s, c) == Some((a, b)) <==> c !in a && s == a + ([c] + b)
  {
    if c !in a && s == a + ([c] + b) {
      Cut(a, c, b);
      assert IndexOf(s, c) == |a|;
    } else if SplitAt(s, c).Some? {
      Glue(s, IndexOf(s, c));
    }
  }

  const VERSION_TAG: string := "HTTP/"

  /** `^([^ ]*) ([^ ]*) HTTP/([^ ]*)$` */
  function SplitRequestLine(line: string): Option<(string, string, string)> {
    match SplitAt(line, ' ')
    case None => None
    case Some((verb, rest)) =>
      match SplitAt(rest, ' ')
      case None => None
      case Some((path, tail)) =>
        if VERSION_TAG <= tail && NoSpace(tail) then Some((verb, path, tail[5..])) else None
  }

  predicate NoSpace(s: string) {
    ' ' !in s
  }

  function RequestLineOf(verb: string, path: string, version: string): string {
    verb + ([' '] + (path + ([' '] + (VERSION_TAG + version))))
  }

  lemma TaggedIff(tail: string, version: string)
    ensures VERSION_TAG <= tail && NoSpace(tail) && tail[5..] == version <==>
      tail == VERSION_TAG + version && NoSpace(version)
  {
  }

  /** The function matches what the expression matches, with the same groups. */
  lemma RequestLineMatches(line: string, verb: string, path: string, version: string)
    ensures SplitRequestLine(line) == Some((verb, path, version)) <==>
      line == RequestLineOf(verb, path, version) && NoSpace(verb) && NoSpace(path) && NoSpace(version)
  {
    var tail := VERSION_TAG + version;
    var rest := path + ([' '] + tail);
    SplitAtIff(line, ' ', verb, rest);
    SplitAtIff(rest, ' ', path, tail);
    TaggedIff(tail, version);
    if SplitRequestLine(line) == Some((verb, path, version)) {
      var rest' := SplitAt(line, ' ').value.1;
      var tail' := SplitAt(rest', ' ').value.1;
      SplitAtIff(line, ' ', verb, rest');
      SplitAtIff(rest', ' ', path, tail');
      TaggedIff(tail', version);
    }
  }

  /** `^([^:]*): ?(.*)$`; the dot matches anything but CR and LF. */
  function SplitHeader(line: string): Option<(string, string)> {
    match SplitAt(line, ':')
    case None => None
    case Some((key, rest)) =>
      var value := if rest != "" && rest[0] == ' ' then rest[1..] else rest;
      if OneLine(value) then Some((key, value)) else None
  }

  /** The function matches what the expression matches, with the same groups. */
  lemma HeaderMatches(line: string, key: string, value: string)
    ensures SplitHeader(line) == Some((key, value)) <==>
      ':' !in key && OneLine(value) &&
      (line == key + ([':'] + ([' '] + value)) || (line == key + ([':'] + value) && !(value != "" && value[0] == ' ')))
  {
    SplitAtIff(line, ':', key, [' '] + value);
    SplitAtIff(line, ':', key, value);
    if SplitHeader(line) == Some((key, value)) {
      var rest := SplitAt(line, ':').value.1;
      assert rest == value || rest == [' '] + value;
    }
  }

  // ---------------------------------------------------------------- the request

  datatype ParseState = RequestLine | Headers | Body | Finished

  datatype Request = Request(
    state: ParseState, verb: string, path: string, version: string, body: string,
    header: map<string, string>, post: map<string, string>)

  /** parse answers true or false, or reaches an escape at the end of a form, where C++ leaves it undefined. */
  datatype Outcome = Accepted | Rejected | Undefined

  type Verifier = (string, string, bool) -> bool

  const FRESH: Request := Request(RequestLine, "", "", "", "", map[], map[])

  const DEFAULT_HTML: set<string> := {"/index", "/register", "/login", "/welcome", "/video", "/picture"}

  function PathImage(path: string): string {
    if path == "/" then "/index.html"
    else if path in DEFAULT_HTML then path + ".html"
    else path
  }

  /** Exactly seven paths are changed, and each is led to a page that stands for itself. */
  lemma SevenPathsChange(path: string)
    ensures PathImage(path) != path <==>
      path in {"/", "/index", "/register", "/login", "/welcome", "/video", "/picture"}
    ensures path in {"/index", "/register", "/login", "/welcome", "/video", "/picture"} ==>
      PathImage(path) == path + ".html"
    ensures PathImage("/") == PathImage("/index") == "/index.html"
    ensures PathImage(PathImage(path)) == PathImage(path)
  {
    if path in DEFAULT_HTML {
      assert path + ".html" != "/" && forall page | page in DEFAULT_HTML :: '.' !in page;
      assert (path + ".html")[|path|] == '.';
    }
  }

  const FORM_TYPE: string := "application/x-www-form-urlencoded"

  /** Line 147: looking the content type up with [] creates it. */
  function ContentTyped(r: Request): Request {
    if r.verb == "POST" && "Content-Type" !in r.header then r.(header := r.header["Content-Type" := ""]) else r
  }

  predicate IsForm(r: Request) {
    r.verb == "POST" && "Content-Type" in r.header && r.header["Content-Type"] == FORM_TYPE
  }

  function PostValue(post: map<string, string>, key: string): string {
    if key in post then post[key] else ""
  }

  function WithKey(post: map<string, string>, key: string): map<string, string> {
    if key in post then post else post[key := ""]
  }

  /** Lines 150-166 once the form has been decoded; [] on post_ creates the two keys. */
  function Verified(r: Request, verify: Verifier): Request {
    if r.path != "/register.html" && r.path != "/login.html" then r
    else
      var user := PostValue(r.post, "username");
      var password := PostValue(r.post, "password");
      r.(post := WithKey(WithKey(r.post, "username"), "password"),
         path := if verify(user, password, r.path == "/login.html") then "/welcome.html" else "/error.html")
  }

  /** ParseBody_ with ParsePost_; None when the form cannot be decoded. */
  function WithBody(r: Request, line: string, verify: Verifier): Option<Request> {
    var r1 := ContentTyped(r.(body := line));
    if !IsForm(r1) then Some(r1.(state := Finished))
    else
      match FormDecoding.Decode(line, r1.post)
      case Overrun => None
      case Scanned(body, _, _, post) => Some(Verified(r1.(body := body, post := post), verify).(state := Finished))
  }

  function WithHeader(r: Request, line: string): Request {
    match SplitHeader(line)
    case Some((key, value)) => r.(header := r.header[key := value])
    case None => r.(state := Body)
  }

  /** One turn of the loop on the line at hand, with `readable` bytes in the buffer. */
  function WithLine(r: Request, line: string, readable: nat, verify: Verifier): (Option<Request>, Outcome) {
    match r.state
    case RequestLine =>
      (match SplitRequestLine(line)
       case Some((verb, path, version)) =>
         (Some(r.(verb := verb, path := PathImage(path), version := version, state := Headers)), Accepted)
       case None => (Some(r), Rejected))
    case Headers =>
      var r1 := WithHeader(r, line);
      (Some(if readable <= 2 then r1.(state := Finished) else r1), Accepted)
    case Body =>
      var r1 := WithBody(r, line, verify);
      (r1, if r1.None? then Undefined else Accepted)
    case Finished => (Some(r), Accepted)
  }

  /** The loop of lines 43-74: the request, the answer and what is left in the buffer. */
  function Parsed(r: Request, input: string, verify: Verifier): (Request, Outcome, string)
    decreases |input|
  {
    if input == "" || r.state.Finished? then (r, Accepted, input)
    else
      var end := FindCrlf(input);
      var (next, outcome) := WithLine(r, input[..end], |input|, verify);
      if outcome != Accepted || next.None? then (r, outcome, input)
      else if end == |input| then (next.value, Accepted, input)
      else Parsed(next.value, input[end + 2..], verify)
  }

  // ---------------------------------------------------------------- any input

  /** The first break of `s` is also the first break of any text that agrees with `s` up to it. */
  lemma SameBreak(s: string, t: string)
    requires FindCrlf(s) + 2 <= |s| && FindCrlf(s) + 2 <= |t|
    requires forall i | 0 <= i < FindCrlf(s) + 2 :: t[i] == s[i]
    ensures FindCrlf(t) == FindCrlf(s)
  {
    var k := FindCrlf(t);
    var e := FindCrlf(s);
    assert BreakAt(t, e);
    if k < e {
      assert BreakAt(t, k) && BreakAt(s, k);
    }
  }

  lemma WholeLinesCons(s: string, end: nat, tail: string)
    requires FindCrlf(s) == end < |s| && s[end + 2..] == tail && WholeLines(tail)
    ensures WholeLines(s)
  {
  }

  /** Whatever arrives, parsing ends, consumes whole lines only and leaves the rest as it was. */
  lemma {:induction false} ConsumesWholeLines(r: Request, input: string, verify: Verifier) returns (taken: string)
    ensures input == taken + Parsed(r, input, verify).2 && WholeLines(taken)
    decreases |input|
  {
    taken := "";
    if input != "" && !r.state.Finished? {
      var end := FindCrlf(input);
      var (next, outcome) := WithLine(r, input[..end], |input|, verify);
      if outcome.Accepted? && next.Some? && end < |input| {
        var more := ConsumesWholeLines(next.value, input[end + 2..], verify);
        taken := input[..end + 2] + more;
        SameBreak(input, taken);
        WholeLinesCons(taken, end, more);
      }
    }
  }

  /** A rejected request line consumes and changes nothing. */
  lemma RejectedAtOnceIff(r: Request, input: string, verify: Verifier)
    requires input != ""
    ensures Parsed(r, input, verify).1.Rejected? <==>
      r.state.RequestLine? && SplitRequestLine(input[..FindCrlf(input)]).None?
    ensures Parsed(r, input, verify).1.Rejected? ==> Parsed(r, input, verify) == (r, Rejected, input)
  {
    if r.state.RequestLine? {
      var end := FindCrlf(input);
      var (next, outcome) := WithLine(r, input[..end], |input|, verify);
      if outcome.Accepted? && end < |input| {
        NeverRejectedLater(next.value, input[end + 2..], verify);
      }
    } else {
      NeverRejectedLater(r, input, verify);
    }
  }

  lemma {:induction false} NeverRejectedLater(r: Request, input: string, verify: Verifier)
    requires !r.state.RequestLine?
    ensures !Parsed(r, input, verify).1.Rejected?
    decreases |input|
  {
    if input != "" && !r.state.Finished? {
      var end := FindCrlf(input);
      var (next, outcome) := WithLine(r, input[..end], |input|, verify);
      if outcome.Accepted? && next.Some? && end < |input| {
        NeverRejectedLater(next.value, input[end + 2..], verify);
      }
    }
  }

  // ---------------------------------------------------------------- the printer

  function HeaderLine(h: (string, string)): string {
    h.0 + ([':'] + ([' '] + h.1))
  }

  function HeaderLines(headers: Headers): string {
    if headers == [] then "" else HeaderLine(headers[0]) + (CRLF + HeaderLines(headers[1..]))
  }

  function Print(verb: string, path: string, version: string, headers: Headers, body: string): string {
    RequestLineOf(verb, path, version) + (CRLF + (HeaderLines(headers) + (CRLF + body)))
  }

  predicate Printable(verb: string, path: string, version: string, headers: Headers) {
    && OneLine(verb) && OneLine(path) && OneLine(version)
    && NoSpace(verb) && NoSpace(path) && NoSpace(version)
    && forall h | h in headers :: OneLine(h.0) && OneLine(h.1) && ':' !in h.0
  }

  // ---------------------------------------------------------------- parsing inverts printing

  lemma OneLineConcat(a: string, b: string)
    requires OneLine(a) && OneLine(b)
    ensures OneLine(a + b)
  {
  }

  /** One unfolding of the loop. */
  lemma Turn(r: Request, input: string, line: string, rest: string, verify: Verifier)
    requires !r.state.Finished? && FindCrlf(input) == |line| < |input|
    requires input[..|line|] == line && input[|line| + 2..] == rest
    ensures var (next, outcome) := WithLine(r, line, |input|, verify);
      Parsed(r, input, verify) ==
        if outcome != Accepted || next.None? then (r, outcome, input) else Parsed(next.value, rest, verify)
  {
  }

  lemma SplitFirst(input: string, line: string, rest: string)
    requires OneLine(line) && input == line + (CRLF + rest)
    ensures |input| == |line| + 2 + |rest| && FindCrlf(input) == |line|
    ensures input[..|line|] == line && input[|line| + 2..] == rest
  {
    FindInLine(line, rest);
  }

  /** The turn on a CRLF-terminated line. */
  lemma TurnOnLine(r: Request, input: string, line: string, rest: string, verify: Verifier)
    requires OneLine(line) && !r.state.Finished? && input == line + (CRLF + rest)
    ensures |input| == |line| + 2 + |rest|
    ensures var (next, outcome) := WithLine(r, line, |input|, verify);
      Parsed(r, input, verify) ==
        if outcome != Accepted || next.None? then (r, outcome, input) else Parsed(next.value, rest, verify)
  {
    SplitFirst(input, line, rest);
    Turn(r, input, line, rest, verify);
  }

  lemma RequestLineIsOneLine(verb: string, path: string, version: string)
    requires OneLine(verb) && OneLine(path) && OneLine(version)
    ensures OneLine(RequestLineOf(verb, path, version))
  {
  }

  lemma ParseFirstLine(verb: string, path: string, version: string, rest: string, verify: Verifier)
    requires Printable(verb, path, version, [])
    ensures Parsed(FRESH, RequestLineOf(verb, path, version) + (CRLF + rest), verify) ==
      Parsed(FRESH.(state := Headers, verb := verb, path := PathImage(path), version := version), rest, verify)
  {
    var line := RequestLineOf(verb, path, version);
    RequestLineMatches(line, verb, path, version);
    RequestLineIsOneLine(verb, path, version);
    TurnOnLine(FRESH, line + (CRLF + rest), line, rest, verify);
  }

  lemma ParseHeaderLine(r: Request, h: (string, string), rest: string, verify: Verifier)
    requires r.state.Headers? && |rest| > 0 && OneLine(h.0) && OneLine(h.1) && ':' !in h.0
    ensures Parsed(r, HeaderLine(h) + (CRLF + rest), verify) == Parsed(r.(header := r.header[h.0 := h.1]), rest, verify)
  {
    var line := HeaderLine(h);
    HeaderMatches(line, h.0, h.1);
    OneLineConcat([' '], h.1);
    OneLineConcat([':'], [' '] + h.1);
    OneLineConcat(h.0, [':'] + ([' '] + h.1));
    TurnOnLine(r, line + (CRLF + rest), line, rest, verify);
  }

  lemma {:induction false} ParseHeaderLines(r: Request, headers: Headers, rest: string, verify: Verifier)
    requires r.state.Headers? && |rest| > 0
    requires forall h | h in headers :: OneLine(h.0) && OneLine(h.1) && ':' !in h.0
    ensures Parsed(r, HeaderLines(headers) + rest, verify) ==
      Parsed(r.(header := FormDecoding.AsMap(headers, r.header)), rest, verify)
    decreases |headers|
  {
    if headers == [] {
      assert HeaderLines(headers) + rest == rest;
    } else {
      var h := headers[0];
      assert h in headers;
      var tail := HeaderLines(headers[1..]) + rest;
      assert HeaderLines(headers) + rest == HeaderLine(h) + (CRLF + tail);
      ParseHeaderLine(r, h, tail, verify);
      forall g | g in headers[1..]
        ensures g in headers
      {
      }
      ParseHeaderLines(r.(header := r.header[h.0 := h.1]), headers[1..], rest, verify);
    }
  }

  /** A line without a colon is no header: it ends them, and unless it is blank and the last, a body follows. */
  lemma LineWithoutColonEndsHeaders(r: Request, line: string, body: string, verify: Verifier)
    requires r.state.Headers? && OneLine(line) && ':' !in line
    ensures Parsed(r, line + (CRLF + body), verify) ==
      Parsed(r.(state := if line == "" && body == "" then Finished else Body), body, verify)
  {
    TurnOnLine(r, line + (CRLF + body), line, body, verify);
  }

  /** The blank line ends the request when nothing follows it, and otherwise what follows is the body. */
  lemma ParseBlankLine(r: Request, body: string, verify: Verifier)
    requires r.state.Headers?
    ensures Parsed(r, CRLF + body, verify) == Parsed(r.(state := if body == "" then Finished else Body), body, verify)
  {
  }

  /** The first line of a body is all that is read of it. */
  function FirstLine(body: string): string {
    body[..FindCrlf(body)]
  }

  /** What stays in the buffer: a body without a line end is never retrieved. */
  function LeftIn(body: string): string {
    if FindCrlf(body) == |body| then body else body[FindCrlf(body) + 2..]
  }

  /** The request a printed text stands for; None when its body is a form that ends inside an escape. */
  function Meaning(verb: string, path: string, version: string, headers: Headers, body: string, verify: Verifier)
    : Option<Request>
  {
    var r := Request(Finished, verb, PathImage(path), version, "", FormDecoding.AsMap(headers, map[]), map[]);
    if body == "" then Some(r) else WithBody(r, FirstLine(body), verify)
  }

  /** Parsing what was printed recovers it, for every verb and every body. Lines 69-72 leave the loop before a body
      without a line end is retrieved. */
  lemma ParseInvertsPrint(
      verb: string, path: string, version: string, headers: Headers, body: string, verify: Verifier)
    requires Printable(verb, path, version, headers)
    ensures var meant := Meaning(verb, path, version, headers, body, verify);
      var (r, outcome, rest) := Parsed(FRESH, Print(verb, path, version, headers, body), verify);
      if meant.Some? then outcome == Accepted && r == meant.value && rest == LeftIn(body)
      else outcome == Undefined && rest == body
  {
    var r1 := FRESH.(state := Headers, verb := verb, path := PathImage(path), version := version);
    var blank := CRLF + body;
    ParseFirstLine(verb, path, version, HeaderLines(headers) + blank, verify);
    ParseHeaderLines(r1, headers, blank, verify);
    ParseAfterHeaders(r1.(header := FormDecoding.AsMap(headers, map[])), body, verify);
  }

  /** In particular a body without a line end is recovered, and left in the buffer. */
  lemma ParseWholeBody(
      verb: string, path: string, version: string, headers: Headers, body: string, verify: Verifier)
    requires Printable(verb, path, version, headers) && FindCrlf(body) == |body|
    ensures var plain := Request(Finished, verb, PathImage(path), version, "", FormDecoding.AsMap(headers, map[]), map[]);
      var meant := if body == "" then Some(plain) else WithBody(plain, body, verify);
      Parsed(FRESH, Print(verb, path, version, headers, body), verify).2 == body &&
      (meant.Some? ==> Parsed(FRESH, Print(verb, path, version, headers, body), verify) == (meant.value, Accepted, body))
  {
    ParseInvertsPrint(verb, path, version, headers, body, verify);
    assert FirstLine(body) == body;
  }

  lemma ParseAfterHeaders(r: Request, body: string, verify: Verifier)
    requires r.state.Headers?
    ensures var end := r.(state := Finished);
      var meant := if body == "" then Some(end) else WithBody(end, FirstLine(body), verify);
      var (s, outcome, rest) := Parsed(r, CRLF + body, verify);
      if meant.Some? then outcome == Accepted && s == meant.value && rest == LeftIn(body)
      else outcome == Undefined && rest == body
  {
    ParseBlankLine(r, body, verify);
    if body != "" {
      ParseBodyLine(r.(state := Body), body, verify);
      BodyStateIsIrrelevant(r.(state := Body), r.(state := Finished), FirstLine(body), verify);
    }
  }

  lemma ParseBodyLine(r: Request, body: string, verify: Verifier)
    requires r.state.Body? && body != ""
    ensures var next := WithBody(r, FirstLine(body), verify);
      Parsed(r, body, verify) == if next.None? then (r, Undefined, body) else (next.value, Accepted, LeftIn(body))
  {
  }

  lemma BodyStateIsIrrelevant(r: Request, s: Request, body: string, verify: Verifier)
    requires s == r.(state := s.state)
    ensures WithBody(r, body, verify) == WithBody(s, body, verify)
  {
  }

  // ---------------------------------------------------------------- what stays in the buffer

  /** An accepted request leaves nothing behind exactly when it has no body, or one that is a single terminated line. */
  lemma NothingIsLeftIff(
      verb: string, path: string, version: string, headers: Headers, body: string, verify: Verifier)
    requires Printable(verb, path, version, headers)
    requires Parsed(FRESH, Print(verb, path, version, headers, body), verify).1.Accepted?
    ensures Parsed(FRESH, Print(verb, path, version, headers, body), verify).2 == "" <==>
      body == "" || FindCrlf(body) + 2 == |body|
  {
    ParseInvertsPrint(verb, path, version, headers, body, verify);
  }

  lemma Associative(a: string, b: string, c: string)
    ensures a + b + c == a + (b + c)
  {
  }

  /** A text without a line end joins the line that follows it. */
  lemma JoinedLine(left: string, line: string, rest: string)
    requires FindCrlf(left) == |left| && OneLine(line) && line != ""
    ensures var input := left + (line + (CRLF + rest));
      FindCrlf(input) == |left + line| < |input| && input[..|left + line|] == left + line
  {
    var input := left + (line + (CRLF + rest));
    var end := |left + line|;
    assert input == left + line + (CRLF + rest);
    assert BreakAt(input, end);
    forall m: nat | m < end
      ensures !BreakAt(input, m)
    {
      if m + 2 <= |left| {
        assert !BreakAt(left, m);
      } else if m >= |left| {
        assert input[m] == line[m - |left|];
      } else {
        assert input[m + 1] == line[0];
      }
    }
  }

  /** A request line with a text before it is one again exactly when the text holds no space. */
  lemma SplitJoinedLine(left: string, verb: string, path: string, version: string)
    requires NoSpace(verb) && NoSpace(path) && NoSpace(version)
    ensures SplitRequestLine(left + RequestLineOf(verb, path, version)) ==
      if NoSpace(left) then Some((left + verb, path, version)) else None
  {
    var tail := path + ([' '] + (VERSION_TAG + version));
    var line := left + RequestLineOf(verb, path, version);
    if NoSpace(left) {
      Associative(left, verb, [' '] + tail);
      RequestLineMatches(line, left + verb, path, version);
    } else if SplitRequestLine(line).Some? {
      ThreeSpaces(left, verb, tail);
    }
  }

  /** A space in front, one behind the verb and one in the tail leave no tail without a space. */
  lemma ThreeSpaces(left: string, verb: string, tail: string)
    requires !NoSpace(left) && !NoSpace(tail)
    ensures SplitRequestLine(left + (verb + ([' '] + tail))).None?
  {
    var line := left + (verb + ([' '] + tail));
    var i := IndexOf(line, ' ');
    var m :| 0 <= m < |left| && left[m] == ' ';
    assert line[m] == ' ' && i <= m;
    var rest := line[i + 1..];
    var k := |left| + |verb| - i - 1;
    assert line[|left| + |verb|] == ' ' && rest[k] == ' ';
    var j := IndexOf(rest, ' ');
    assert j <= k;
    var t :| 0 <= t < |tail| && tail[t] == ' ';
    assert rest[k + 1 + t] == ' ';
    assert rest[j + 1..][k + t - j] == ' ';
  }

  lemma LineKeepsVerb(r: Request, line: string, readable: nat, verify: Verifier)
    requires !r.state.RequestLine?
    ensures var next := WithLine(r, line, readable, verify).0;
      next.Some? ==> next.value.verb == r.verb && !next.value.state.RequestLine?
  {
  }

  lemma {:induction false} VerbIsKept(r: Request, input: string, verify: Verifier)
    requires !r.state.RequestLine?
    ensures Parsed(r, input, verify).0.verb == r.verb
    decreases |input|
  {
    if input != "" && !r.state.Finished? {
      var end := FindCrlf(input);
      var turn := WithLine(r, input[..end], |input|, verify);
      LineKeepsVerb(r, input[..end], |input|, verify);
      if turn.1.Accepted? && turn.0.Some? && end < |input| {
        Turn(r, input, input[..end], input[end + 2..], verify);
        VerbIsKept(turn.0.value, input[end + 2..], verify);
      }
    }
  }

  /** What stays in the buffer without a line end is read as the beginning of the next request: with a space in it
      that request is rejected and still unread, and otherwise it is the beginning of the method. */
  lemma LeftoverJoinsNextRequest(
      left: string, verb: string, path: string, version: string, headers: Headers, body: string, verify: Verifier)
    requires Printable(verb, path, version, headers) && FindCrlf(left) == |left|
    ensures var input := left + Print(verb, path, version, headers, body); var p := Parsed(FRESH, input, verify);
      if NoSpace(left) then p.1 != Rejected && p.0.verb == left + verb else p == (FRESH, Rejected, input)
  {
    var line := RequestLineOf(verb, path, version);
    RequestLineIsOneLine(verb, path, version);
    JoinedLine(left, line, HeaderLines(headers) + (CRLF + body));
    SplitJoinedLine(left, verb, path, version);
    FirstTurn(left + Print(verb, path, version, headers, body), left + line, verify);
  }

  /** The first line alone decides whether a text is rejected, and the method. */
  lemma FirstTurn(input: string, line: string, verify: Verifier)
    requires FindCrlf(input) == |line| < |input| && input[..|line|] == line
    ensures var p := Parsed(FRESH, input, verify); var groups := SplitRequestLine(line);
      if groups.None? then p == (FRESH, Rejected, input) else p.1 != Rejected && p.0.verb == groups.value.0
  {
    var (next, outcome) := WithLine(FRESH, line, |input|, verify);
    Turn(FRESH, input, line, input[|line| + 2..], verify);
    if outcome.Accepted? {
      NeverRejectedLater(next.value, input[|line| + 2..], verify);
      VerbIsKept(next.value, input[|line| + 2..], verify);
    }
  }

  /** So the next request comes out as it would alone exactly when nothing was left; otherwise already its outcome or
      its method differs. */
  lemma LeftoverIsHarmlessIff(
      left: string, verb: string, path: string, version: string, headers: Headers, body: string, verify: Verifier,
      joined: (Request, Outcome, string), alone: (Request, Outcome, string))
    requires Printable(verb, path, version, headers) && FindCrlf(left) == |left|
    requires joined == Parsed(FRESH, left + Print(verb, path, version, headers, body), verify)
    requires alone == Parsed(FRESH, Print(verb, path, version, headers, body), verify)
    ensures joined == alone <==> left == ""
    ensures joined.1 == alone.1 && joined.0.verb == alone.0.verb <==> left == ""
  {
    if left == "" {
      EmptyPrefix(left, Print(verb, path, version, headers, body));
    } else {
      LeftoverJoinsNextRequest(left, verb, path, version, headers, body, verify);
      VerbComesBack(verb, path, version, headers, body, verify);
      assert |left + verb| > |verb|;
    }
  }

  lemma EmptyPrefix(a: string, b: string)
    requires a == ""
    ensures a + b == b
  {
  }

  lemma VerbComesBack(
      verb: string, path: string, version: string, headers: Headers, body: string, verify: Verifier)
    requires Printable(verb, path, version, headers)
    ensures var p := Parsed(FRESH, Print(verb, path, version, headers, body), verify);
      p.1 != Rejected && p.0.verb == verb
  {
    LeftoverJoinsNextRequest("", verb, path, version, headers, body, verify);
    assert "" + Print(verb, path, version, headers, body) == Print(verb, path, version, headers, body);
    assert "" + verb == verb;
  }

  /** What stays in the buffer with a line end in it hides the next request altogether: its own first line decides. */
  lemma LeftoverLineComesFirst(left: string, next: string, verify: Verifier)
    requires FindCrlf(left) < |left|
    ensures FirstLine(left + next) == FirstLine(left)
    ensures Parsed(FRESH, left + next, verify).1.Rejected? <==> SplitRequestLine(FirstLine(left)).None?
  {
    SameBreak(left, left + next);
    RejectedAtOnceIff(FRESH, left + next, verify);
  }

  /** Other methods: every part comes back, the path through PathImage, later headers winning. */
  lemma RoundTripWithoutForm(
      verb: string, path: string, version: string, headers: Headers, body: string, verify: Verifier)
    requires Printable(verb, path, version, headers) && FindCrlf(body) == |body| && verb != "POST"
    ensures Parsed(FRESH, Print(verb, path, version, headers, body), verify) ==
      (Request(Finished, verb, PathImage(path), version, body, FormDecoding.AsMap(headers, map[]), map[]), Accepted, body)
  {
    ParseWholeBody(verb, path, version, headers, body, verify);
  }

  /** A POST whose content type is another one, or none: only the looked-up header may be new. */
  lemma RoundTripOfOtherPost(path: string, version: string, headers: Headers, body: string, verify: Verifier)
    requires Printable("POST", path, version, headers) && FindCrlf(body) == |body|
    requires ("Content-Type", FORM_TYPE) !in headers
    ensures var h := FormDecoding.AsMap(headers, map[]);
      Parsed(FRESH, Print("POST", path, version, headers, body), verify) ==
      (Request(Finished, "POST", PathImage(path), version, body,
               if body == "" || "Content-Type" in h then h else h["Content-Type" := ""], map[]),
       Accepted, body)
  {
    ParseWholeBody("POST", path, version, headers, body, verify);
    HeaderFromList(headers, map[], "Content-Type");
  }

  lemma {:induction false} HeaderFromList(headers: Headers, base: map<string, string>, key: string)
    ensures var h := FormDecoding.AsMap(headers, base);
      key in h ==> (key, h[key]) in headers || (key in base && h[key] == base[key])
    decreases |headers|
  {
    if headers != [] {
      HeaderFromList(headers[1..], base[headers[0].0 := headers[0].1], key);
      assert (headers[0].0, headers[0].1) == headers[0];
    }
  }

  lemma {:induction false} HeaderPresent(headers: Headers, base: map<string, string>, i: nat)
    requires i < |headers| && forall k | i < k < |headers| :: headers[k].0 != headers[i].0
    ensures headers[i].0 in FormDecoding.AsMap(headers, base)
    ensures FormDecoding.AsMap(headers, base)[headers[i].0] == headers[i].1
    decreases |headers|
  {
    var base' := base[headers[0].0 := headers[0].1];
    if i == 0 {
      FormDecoding.AsMapKeys(headers[1..], base', headers[0].0);
    } else {
      HeaderPresent(headers[1..], base', i - 1);
    }
  }

  lemma OneLineHasNoCrlf(s: string)
    requires OneLine(s)
    ensures FindCrlf(s) == |s|
  {
  }

  /** Line breaks that are escaped do not matter. */
  predicate EncodesToOneLine(escaped: set<char>, part: string) {
    OneLine(part) || {'\r', '\n'} <= escaped
  }

  lemma {:induction false} EncodedIsOneLine(escaped: set<char>, part: string)
    requires EncodesToOneLine(escaped, part)
    ensures OneLine(FormDecoding.Encode(escaped, part))
    decreases |part|
  {
    if part != "" {
      assert part[0] in part;
      EncodedIsOneLine(escaped, part[1..]);
      OneLineConcat(FormDecoding.EncodeChar(escaped, part[0]), FormDecoding.Encode(escaped, part[1..]));
    }
  }

  lemma PrintedPairIsOneLine(escaped: set<char>, p: (string, string))
    requires EncodesToOneLine(escaped, p.0) && EncodesToOneLine(escaped, p.1)
    ensures OneLine(FormDecoding.PrintPair(escaped, p))
  {
    EncodedIsOneLine(escaped, p.0);
    EncodedIsOneLine(escaped, p.1);
    OneLineConcat(FormDecoding.Encode(escaped, p.0), "=");
    OneLineConcat(FormDecoding.Encode(escaped, p.0) + "=", FormDecoding.Encode(escaped, p.1));
  }

  lemma {:induction false} PrintedFormIsOneLine(escaped: set<char>, pairs: FormDecoding.Pairs)
    requires forall p | p in pairs :: EncodesToOneLine(escaped, p.0) && EncodesToOneLine(escaped, p.1)
    ensures OneLine(FormDecoding.PrintForm(escaped, pairs))
    decreases |pairs|
  {
    if pairs != [] {
      var p := pairs[0];
      assert p in pairs;
      PrintedPairIsOneLine(escaped, p);
      if |pairs| > 1 {
        PrintedFormIsOneLine(escaped, pairs[1..]);
        OneLineConcat(FormDecoding.PrintPair(escaped, p), "&");
        OneLineConcat(FormDecoding.PrintPair(escaped, p) + "&", FormDecoding.PrintForm(escaped, pairs[1..]));
      }
    }
  }

  lemma PrintedFormIsNotEmpty(escaped: set<char>, pairs: FormDecoding.Pairs)
    requires pairs != []
    ensures FormDecoding.PrintForm(escaped, pairs) != ""
  {
  }

  /** The page a login or registration with these pairs leads to; a missing name or password counts as empty. */
  function Verdict(page: string, post: map<string, string>, verify: Verifier): string {
    var user := if "username" in post then post["username"] else "";
    var password := if "password" in post then post["password"] else "";
    if verify(user, password, page == "/login.html") then "/welcome.html" else "/error.html"
  }

  /** ParsePost_ keeps every decoded pair; only the login pages add keys and change the path. */
  lemma FormOutcome(r: Request, body: string, post: map<string, string>, verify: Verifier)
    requires IsForm(r) && r.post == map[]
    requires FormDecoding.Decode(body, map[]).Scanned? && FormDecoding.Decode(body, map[]).post == post
    ensures var w := WithBody(r, body, verify);
      && w.Some? && w.value.state.Finished? && w.value.verb == "POST" && w.value.version == r.version
      && w.value.header == r.header
      && (forall key | key in post :: key in w.value.post && w.value.post[key] == post[key])
      && (r.path != "/register.html" && r.path != "/login.html" ==> w.value.path == r.path && w.value.post == post)
      && (r.path == "/register.html" || r.path == "/login.html" ==> w.value.path == Verdict(r.path, post, verify))
  {
  }

  /** A posted form comes through both layers, whatever its sender escapes: with distinct keys and a non-empty last
      value the request holds exactly its pairs if and only if nothing in them was sent as an escape. The two login
      pages go on to the verifier. */
  lemma RoundTripOfForm(
      path: string, version: string, headers: Headers, i: nat,
      escaped: set<char>, pairs: FormDecoding.Pairs, verify: Verifier)
    requires Printable("POST", path, version, headers)
    requires i < |headers| && headers[i] == ("Content-Type", FORM_TYPE)
    requires forall k | i < k < |headers| :: headers[k].0 != "Content-Type"
    requires FormDecoding.RESERVED <= escaped && pairs != [] && pairs[|pairs| - 1].1 != ""
    requires forall p | p in pairs :: EncodesToOneLine(escaped, p.0) && EncodesToOneLine(escaped, p.1)
    requires forall j, k | 0 <= j < k < |pairs| :: pairs[j].0 != pairs[k].0
    ensures var body := FormDecoding.PrintForm(escaped, pairs);
      var (r, outcome, _) := Parsed(FRESH, Print("POST", path, version, headers, body), verify);
      var clean := FormDecoding.CleanPairs(escaped, pairs);
      var page := PathImage(path);
      && outcome == Accepted && r.state.Finished? && r.verb == "POST" && r.version == version
      && r.header == FormDecoding.AsMap(headers, map[])
      && (clean ==> forall p | p in pairs :: p.0 in r.post && r.post[p.0] == p.1)
      && (page != "/register.html" && page != "/login.html" ==>
            r.path == page && (r.post == FormDecoding.AsMap(pairs, map[]) <==> clean))
      && (page == "/register.html" || page == "/login.html" ==>
            clean ==> r.path == Verdict(page, FormDecoding.AsMap(pairs, map[]), verify))
  {
    var body := FormDecoding.PrintForm(escaped, pairs);
    PrintedFormIsOneLine(escaped, pairs);
    OneLineHasNoCrlf(body);
    HeaderPresent(headers, map[], i);
    FormDecoding.DistinctPairsComeBackIff(escaped, pairs);
    PrintedFormIsNotEmpty(escaped, pairs);
    var r := Request(Finished, "POST", PathImage(path), version, "", FormDecoding.AsMap(headers, map[]), map[]);
    FormOutcome(r, body, FormDecoding.Decode(body, map[]).post, verify);
    ParseWholeBody("POST", path, version, headers, body, verify);
  }

  /** Of any printed request without a form, every part comes back and the body stays in the buffer. */
  ghost predicate ReadsPrinted(input: string, r: Request, outcome: Outcome, rest: string) {
    forall verb, path, version, headers, body |
      Printable(verb, path, version, headers) && FindCrlf(body) == |body| && verb != "POST" &&
      input == Print(verb, path, version, headers, body) ::
      outcome == Accepted && rest == body &&
      r == Request(Finished, verb, PathImage(path), version, body, FormDecoding.AsMap(headers, map[]), map[])
  }

  /** What the theorems say of the answer to any input. */
  lemma ParseAnswers(r: Request, input: string, verify: Verifier)
    ensures exists taken :: WholeLines(taken) && input == taken + Parsed(r, input, verify).2
    ensures input != "" ==>
      (Parsed(r, input, verify).1.Rejected? <==> r.state.RequestLine? && SplitRequestLine(FirstLine(input)).None?)
    ensures Parsed(r, input, verify).1.Rejected? ==> Parsed(r, input, verify) == (r, Rejected, input)
    ensures r == FRESH ==>
      var p := Parsed(r, input, verify); ReadsPrinted(input, p.0, p.1, p.2)
  {
    var taken := ConsumesWholeLines(r, input, verify);
    if input != "" {
      RejectedAtOnceIff(r, input, verify);
    }
    if r == FRESH {
      forall verb, path, version, headers, body |
        Printable(verb, path, version, headers) && FindCrlf(body) == |body| && verb != "POST" &&
        input == Print(verb, path, version, headers, body)
        ensures Parsed(r, input, verify) ==
          (Request(Finished, verb, PathImage(path), version, body, FormDecoding.AsMap(headers, map[]), map[]), Accepted, body)
      {
        RoundTripWithoutForm(verb, path, version, headers, body, verify);
      }
    }
  }

  // ---------------------------------------------------------------- the parser object

  class HttpRequest {
    var state: ParseState
    var verb: string
    var path: string
    var version: string
    var body: string
    var header: map<string, string>
    var post: map<string, string>

    ghost function Abstract(): Request
      reads this
    {
      Request(state, verb, path, version, body, header, post)
    }

    constructor ()
      ensures Abstract() == FRESH
    {
      state, verb, path, version, body, header, post := RequestLine, "", "", "", "", map[], map[];
    }

    method Init()
      modifies this
      ensures Abstract() == FRESH
    {
      state, verb, path, version, body, header, post := RequestLine, "", "", "", "", map[], map[];
    }

    method ParsePath()
      modifies this`path
      ensures path == PathImage(old(path))
    {
      if path == "/" {
        path := "/index.html";
      } else if path in DEFAULT_HTML {
        path := path + ".html";
      }
    }

    method ParseRequestLine(line: string) returns (ok: bool)
      modifies this
      ensures ok <==> SplitRequestLine(line).Some?
      ensures !ok ==> Abstract() == old(Abstract())
      ensures ok ==> var (v, p, n) := SplitRequestLine(line).value;
        Abstract() == old(Abstract()).(verb := v, path := p, version := n, state := Headers)
    {
      match SplitRequestLine(line)
      case Some((v, p, n)) =>
        verb, path, version := v, p, n;
        state := Headers;
        ok := true;
      case None => ok := false;
    }

    method ParseHeader(line: string)
      modifies this`header, this`state
      ensures Abstract() == WithHeader(old(Abstract()), line)
    {
      match SplitHeader(line)
      case Some((key, value)) => header := header[key := value];
      case None => state := Body;
    }

    /** One pass over the body, in place. `defined` is false when an escape reaches past its end. */
    method ParseFromUrlencoded() returns (defined: bool)
      modifies this`body, this`post
      ensures var s := FormDecoding.Decode(old(body), old(post));
        defined == s.Scanned? && (defined ==> body == s.body && post == s.post)
    {
      if body == "" {
        return true;
      }
      var key := "";
      var n := |body|;
      var i, j := 0, 0;
      while i < n
        invariant j <= i <= n == |body|
        invariant FormDecoding.Scan(body, i, j, key, post) == FormDecoding.Scan(old(body), 0, 0, "", old(post))
        decreases n - i
      {
        var ch := body[i];
        match ch {
          case '=' =>
            key := body[j..i];
            j := i + 1;
          case '+' =>
            body := body[i := ' '];
          case '%' =>
            if i + 2 >= n {
              return false;
            }
            var num := FormDecoding.ConverHex(body[i + 1]) * 16 + FormDecoding.ConverHex(body[i + 2]);
            body := body[i + 2 := FormDecoding.ToChar(Remainder(num, 10) + 48)];
            body := body[i + 1 := FormDecoding.ToChar(Quotient(num, 10) + 48)];
            i := i + 2;
          case '&' =>
            post := post[key := body[j..i]];
            j := i + 1;
          case _ =>
        }
        i := i + 1;
      }
      assert body[j..i] == body[j..];
      if key !in post && j < i {
        post := post[key := body[j..i]];
      }
      defined := true;
    }

    method ParsePost(verify: Verifier) returns (defined: bool)
      modifies this
      ensures var r := WithBody(old(Abstract()), old(body), verify);
        defined == r.Some? && (defined ==> Abstract() == r.value.(state := old(state)))
    {
      defined := true;
      if verb == "POST" {
        if "Content-Type" !in header {
          header := header["Content-Type" := ""];
        }
        if header["Content-Type"] == FORM_TYPE {
          defined := ParseFromUrlencoded();
          if defined && (path == "/register.html" || path == "/login.html") {
            var user := PostValue(post, "username");
            var password := PostValue(post, "password");
            post := WithKey(WithKey(post, "username"), "password");
            path := if verify(user, password, path == "/login.html") then "/welcome.html" else "/error.html";
          }
        }
      }
    }

    method ParseBody(line: string, verify: Verifier) returns (defined: bool)
      modifies this
      ensures var r := WithBody(old(Abstract()), line, verify);
        defined == r.Some? && (defined ==> Abstract() == r.value)
    {
      body := line;
      defined := ParsePost(verify);
      state := Finished;
    }

    method ParseLine(line: string, readable: nat, verify: Verifier) returns (outcome: Outcome)
      modifies this
      ensures var (next, o) := WithLine(old(Abstract()), line, readable, verify);
        outcome == o && (next.Some? ==> Abstract() == next.value)
    {
      outcome := Accepted;
      match state
      case RequestLine =>
        var ok := ParseRequestLine(line);
        if ok {
          ParsePath();
        } else {
          outcome := Rejected;
        }
      case Headers =>
        ParseHeader(line);
        if readable <= 2 {
          state := Finished;
        }
      case Body =>
        var defined := ParseBody(line, verify);
        if !defined {
          outcome := Undefined;
        }
      case Finished =>
    }

    /** `rest` is what the buffer still holds afterwards. */
    method Parse(input: string, verify: Verifier) returns (outcome: Outcome, rest: string)
      modifies this
      ensures input == "" ==> outcome == Rejected && rest == "" && Abstract() == old(Abstract())
      ensures input != "" ==>
        var (r, o, t) := Parsed(old(Abstract()), input, verify);
        outcome == o && rest == t && (o.Undefined? || Abstract() == r)
      ensures exists taken :: WholeLines(taken) && input == taken + rest
      ensures outcome == Rejected <==>
        input == "" || (old(state).RequestLine? && SplitRequestLine(FirstLine(input)).None?)
      ensures outcome == Rejected ==> rest == input && Abstract() == old(Abstract())
      ensures old(Abstract()) == FRESH ==> ReadsPrinted(input, Abstract(), outcome, rest)
    {
      ParseAnswers(Abstract(), input, verify);
      rest := input;
      if |rest| <= 0 {
        return Rejected, rest;
      }
      while |rest| > 0 && !state.Finished?
        invariant Parsed(Abstract(), rest, verify) == Parsed(old(Abstract()), input, verify)
        decreases |rest|
      {
        var lineEnd := FindCrlf(rest);
        outcome := ParseLine(rest[..lineEnd], |rest|, verify);
        if !outcome.Accepted? {
          return;
        }
        if lineEnd == |rest| {
          return;
        }
        rest := rest[lineEnd + 2..];
      }
      outcome := Accepted;
    }
  }
}
