/**
  The scan of an AWS SDK debug log for an STS AssumeRole request that carries both confused-deputy
  headers: a line-by-line state machine over two log formats, against a description of the blocks
  of a log.
 */
module DebugLogScanner {
  import opened Common

  // ----- string helpers of the library -----

  predicate HasSuffix(s: string, suffix: string) {
    |suffix| <= |s| && s[|s| - |suffix|..] == suffix
  }

  /** Unicode white space. */
  predicate IsSpace(c: char) {
    || '\t' <= c <= '\r' || c == ' ' || c == '\U{0085}' || c == '\U{00A0}' || c == '\U{1680}'
    || '\U{2000}' <= c <= '\U{200A}' || c == '\U{2028}' || c == '\U{2029}' || c == '\U{202F}' || c == '\U{205F}' || c == '\U{3000}'
  }

  function TrimLeft(s: string): string {
    if s != "" && IsSpace(s[0]) then TrimLeft(s[1..]) else s
  }

  function TrimRight(s: string): string {
    if s != "" && IsSpace(s[|s| - 1]) then TrimRight(s[..|s| - 1]) else s
  }

  function TrimSpace(s: string): string {
    TrimRight(TrimLeft(s))
  }

  // ----- what a line is -----

  predicate IsRequestBlockStart(line: string) {
    Contains(line, "---[ REQUEST POST-SIGN ]---") || HasSuffix(TrimSpace(line), "D! Request")
  }

  predicate IsHTTPDebugBlockStart(line: string) {
    || IsRequestBlockStart(line)
    || Contains(line, "---[ RESPONSE ]---")
    || HasSuffix(TrimSpace(line), "D! Response")
  }

  predicate IsEndMarker(line: string) {
    Contains(line, "-----------------------------------------------------")
  }

  /** A line that ends the block before it. */
  predicate Terminates(line: string) {
    IsHTTPDebugBlockStart(line) || IsEndMarker(line)
  }

  /** The account and instance the headers must name. */
  datatype Metadata = Metadata(accountId: string, instanceArn: string)

  predicate IsAssumeRole(line: string) {
    Contains(line, "Action=AssumeRole")
  }

  predicate IsAccountHeader(md: Metadata, line: string) {
    Contains(line, "X-Amz-Source-Account: " + md.accountId)
  }

  predicate IsArnHeader(md: Metadata, line: string) {
    Contains(line, "X-Amz-Source-Arn: " + md.instanceArn)
  }

  // ----- the description -----

  /** The lines include an AssumeRole action and both headers. */
  ghost predicate HasAllFacts(md: Metadata, block: seq<string>) {
    && (exists l :: l in block && IsAssumeRole(l))
    && (exists l :: l in block && IsAccountHeader(md, l))
    && (exists l :: l in block && IsArnHeader(md, l))
  }

  /** `lines[i..j]` begins with a request start and runs on to before any line that ends it. */
  ghost predicate WithinRequest(lines: seq<string>, i: nat, j: nat) {
    && i < j <= |lines|
    && IsRequestBlockStart(lines[i])
    && forall k | i < k < j :: !Terminates(lines[k])
  }

  /** Some one request block of the log contains all three facts. */
  ghost predicate SomeRequestHasAll(md: Metadata, lines: seq<string>) {
    exists i: nat, j: nat :: WithinRequest(lines, i, j) && HasAllFacts(md, lines[i..j])
  }

  // ----- the log formats, by their text -----

  /** The characters that trimming removes. */
  const WHITE_SPACE := "\t\n\U{000B}\U{000C}\r \U{0085}\U{00A0}\U{1680}\U{2000}\U{2001}\U{2002}\U{2003}\U{2004}\U{2005}\U{2006}\U{2007}\U{2008}\U{2009}\U{200A}\U{2028}\U{2029}\U{202F}\U{205F}\U{3000}"

  ghost predicate Blank(w: string) {
    forall c | c in w :: c in WHITE_SPACE
  }

  /** The line ends with the text, but for white space. */
  ghost predicate EndsIn(line: string, text: string) {
    exists before, w :: line == before + text + w && Blank(w)
  }

  /** The first line of a request in the older format, which names it between dashes, or in the newer one, which ends with it. */
  ghost predicate StartsRequest(line: string) {
    Around(line, "---[ REQUEST POST-SIGN ]---") || EndsIn(line, "D! Request")
  }

  /** ... of a request or a response. */
  ghost predicate StartsBlock(line: string) {
    StartsRequest(line) || Around(line, "---[ RESPONSE ]---") || EndsIn(line, "D! Response")
  }

  /** ... or the line of dashes that ends a block of the older format. */
  ghost predicate EndsBlock(line: string) {
    StartsBlock(line) || Around(line, "-----------------------------------------------------")
  }

  /** A request with the action and both headers: its first line and what follows it before any line that ends it. */
  ghost predicate Shows(md: Metadata, request: seq<string>) {
    && request != [] && StartsRequest(request[0])
    && (forall l | l in request[1..] :: !EndsBlock(l))
    && (exists l :: l in request && Around(l, "Action=AssumeRole"))
    && (exists l :: l in request && Around(l, "X-Amz-Source-Account: " + md.accountId))
    && (exists l :: l in request && Around(l, "X-Amz-Source-Arn: " + md.instanceArn))
  }

  ghost predicate LogShows(md: Metadata, lines: seq<string>) {
    exists before, request, after :: lines == before + request + after && Shows(md, request)
  }

  lemma SpaceMeans(c: char)
    ensures IsSpace(c) <==> c in WHITE_SPACE
  {
    SpaceListed(c);
    if c in WHITE_SPACE {
      var i :| 0 <= i < |WHITE_SPACE| && WHITE_SPACE[i] == c;
    }
  }

  /** Where each character stands in the list. */
  lemma SpaceListed(c: char)
    ensures IsSpace(c) ==> c in WHITE_SPACE
  {
    var s := WHITE_SPACE;
    assert s[0] == '\t' && s[1] == '\n' && s[2] == '\U{000B}' && s[3] == '\U{000C}' && s[4] == '\r' && s[5] == ' ';
    assert s[6] == '\U{0085}' && s[7] == '\U{00A0}' && s[8] == '\U{1680}';
    assert s[9] == '\U{2000}' && s[10] == '\U{2001}' && s[11] == '\U{2002}' && s[12] == '\U{2003}' && s[13] == '\U{2004}';
    assert s[14] == '\U{2005}' && s[15] == '\U{2006}' && s[16] == '\U{2007}' && s[17] == '\U{2008}' && s[18] == '\U{2009}' && s[19] == '\U{200A}';
    assert s[20] == '\U{2028}' && s[21] == '\U{2029}' && s[22] == '\U{202F}' && s[23] == '\U{205F}' && s[24] == '\U{3000}';
  }

  lemma BlankMeans(w: string)
    ensures Blank(w) <==> forall i | 0 <= i < |w| :: IsSpace(w[i])
  {
    hide IsSpace, WHITE_SPACE;
    forall c ensures IsSpace(c) <==> c in WHITE_SPACE {
      SpaceMeans(c);
    }
  }

  lemma {:induction false} TrimLeftParts(s: string) returns (w: string)
    ensures s == w + TrimLeft(s)
  {
    hide IsSpace;
    if s != "" && IsSpace(s[0]) {
      var v := TrimLeftParts(s[1..]);
      w := [s[0]] + v;
      assert s == [s[0]] + s[1..];
    } else {
      w := "";
    }
  }

  lemma {:induction false} TrimRightParts(s: string) returns (w: string)
    ensures s == TrimRight(s) + w && forall i | 0 <= i < |w| :: IsSpace(w[i])
  {
    hide IsSpace;
    if s != "" && IsSpace(s[|s| - 1]) {
      var v := TrimRightParts(s[..|s| - 1]);
      w := v + [s[|s| - 1]];
      assert s == s[..|s| - 1] + [s[|s| - 1]];
    } else {
      w := "";
    }
  }

  lemma {:induction false} TrimLeftKeeps(before: string, rest: string) returns (kept: string)
    requires rest != "" && !IsSpace(rest[0])
    ensures TrimLeft(before + rest) == kept + rest
  {
    hide IsSpace;
    if before == "" {
      kept := "";
      assert before + rest == rest;
    } else if IsSpace(before[0]) {
      assert (before + rest)[1..] == before[1..] + rest;
      kept := TrimLeftKeeps(before[1..], rest);
    } else {
      kept := before;
    }
  }

  lemma {:induction false} TrimRightDrops(s: string, w: string)
    requires s != "" && !IsSpace(s[|s| - 1]) && forall i | 0 <= i < |w| :: IsSpace(w[i])
    ensures TrimRight(s + w) == s
  {
    hide IsSpace;
    if w == "" {
      assert s + w == s;
    } else {
      assert (s + w)[..|s + w| - 1] == s + w[..|w| - 1];
      TrimRightDrops(s, w[..|w| - 1]);
    }
  }

  lemma TrimmedSuffix(line: string, text: string)
    requires text != "" && !IsSpace(text[0]) && !IsSpace(text[|text| - 1])
    ensures HasSuffix(TrimSpace(line), text) <==> EndsIn(line, text)
  {
    hide IsSpace, TrimLeft, TrimRight, WHITE_SPACE;
    if HasSuffix(TrimSpace(line), text) {
      var left := TrimLeftParts(line);
      var right := TrimRightParts(TrimLeft(line));
      var trimmed := TrimSpace(line);
      var before := trimmed[..|trimmed| - |text|];
      assert trimmed == before + text;
      assert line == (left + before) + text + right;
      BlankMeans(right);
    }
    if before, w :| line == before + text + w && Blank(w) {
      BlankMeans(w);
      assert line == before + (text + w) && (text + w)[0] == text[0];
      var kept := TrimLeftKeeps(before, text + w);
      assert kept + (text + w) == (kept + text) + w;
      TrimRightDrops(kept + text, w);
      assert (kept + text)[|kept|..] == text;
    }
  }

  /** Which lines the scanner takes for what, by their text. */
  lemma LinesMean(md: Metadata, line: string)
    ensures IsRequestBlockStart(line) <==> StartsRequest(line)
    ensures IsHTTPDebugBlockStart(line) <==> StartsBlock(line)
    ensures Terminates(line) <==> EndsBlock(line)
    ensures IsAssumeRole(line) <==> Around(line, "Action=AssumeRole")
    ensures IsAccountHeader(md, line) <==> Around(line, "X-Amz-Source-Account: " + md.accountId)
    ensures IsArnHeader(md, line) <==> Around(line, "X-Amz-Source-Arn: " + md.instanceArn)
  {
    var request, response := "D! Request", "D! Response";
    assert request[0] == 'D' && request[|request| - 1] == 't' && response[0] == 'D' && response[|response| - 1] == 'e';
    TrimmedSuffix(line, request);
    TrimmedSuffix(line, response);
    hide Contains, HasSuffix, TrimSpace, Around, EndsIn;
    ContainsMeans(line, "---[ REQUEST POST-SIGN ]---");
    ContainsMeans(line, "---[ RESPONSE ]---");
    ContainsMeans(line, "-----------------------------------------------------");
    ContainsMeans(line, "Action=AssumeRole");
    ContainsMeans(line, "X-Amz-Source-Account: " + md.accountId);
    ContainsMeans(line, "X-Amz-Source-Arn: " + md.instanceArn);
  }

  lemma FactsMean(md: Metadata, lines: seq<string>)
    ensures HasAllFacts(md, lines) <==>
      && (exists l :: l in lines && Around(l, "Action=AssumeRole"))
      && (exists l :: l in lines && Around(l, "X-Amz-Source-Account: " + md.accountId))
      && (exists l :: l in lines && Around(l, "X-Amz-Source-Arn: " + md.instanceArn))
  {
    forall l
      ensures IsAssumeRole(l) <==> Around(l, "Action=AssumeRole")
      ensures IsAccountHeader(md, l) <==> Around(l, "X-Amz-Source-Account: " + md.accountId)
      ensures IsArnHeader(md, l) <==> Around(l, "X-Amz-Source-Arn: " + md.instanceArn)
    {
      LinesMean(md, l);
    }
    hide IsAssumeRole, IsAccountHeader, IsArnHeader, Around;
  }

  /** A request block with all facts is a part of the log that shows a request. */
  lemma BlockShows(md: Metadata, lines: seq<string>, i: nat, j: nat)
    requires i < j <= |lines|
    ensures WithinRequest(lines, i, j) && HasAllFacts(md, lines[i..j]) <==> Shows(md, lines[i..j])
  {
    var request := lines[i..j];
    forall l ensures (IsRequestBlockStart(l) <==> StartsRequest(l)) && (Terminates(l) <==> EndsBlock(l)) {
      LinesMean(md, l);
    }
    FactsMean(md, request);
    hide IsRequestBlockStart, StartsRequest, Terminates, EndsBlock, HasAllFacts, Around;
    assert forall k | i < k < j :: request[1..][k - i - 1] == lines[k];
    forall l | l in request[1..] ensures exists k :: i < k < j && lines[k] == l {
      var n :| 0 <= n < |request[1..]| && request[1..][n] == l;
      assert lines[i + 1 + n] == l;
    }
  }

  /** The description of the blocks by position and the one by text are the same. */
  lemma LogMeans(md: Metadata, lines: seq<string>)
    ensures SomeRequestHasAll(md, lines) <==> LogShows(md, lines)
  {
    hide HasAllFacts, Shows, IsRequestBlockStart, Terminates;
    if SomeRequestHasAll(md, lines) {
      var i: nat, j: nat :| WithinRequest(lines, i, j) && HasAllFacts(md, lines[i..j]);
      BlockShows(md, lines, i, j);
      assert lines == lines[..i] + lines[i..j] + lines[j..];
    }
    if before, request, after :| lines == before + request + after && Shows(md, request) {
      assert request != [] by { ShownLines(md, request); }
      var i, j := |before|, |before| + |request|;
      assert lines[i..j] == request;
      BlockShows(md, lines, i, j);
    }
  }

  lemma ShownLines(md: Metadata, request: seq<string>)
    requires Shows(md, request)
    ensures request != []
  {
  }

  /** Some line has the text somewhere in it. */
  ghost predicate Mentions(lines: seq<string>, text: string) {
    exists l :: l in lines && Around(l, text)
  }

  lemma MentionsMore(start: string, body: seq<string>, text: string)
    requires Mentions(body, text)
    ensures exists l :: l in [start] + body && Around(l, text)
  {
    hide Around;
    var l :| l in body && Around(l, text);
    assert l in [start] + body;
  }

  lemma RequestFound(md: Metadata, before: seq<string>, start: string, body: seq<string>, after: seq<string>)
    requires StartsRequest(start) && forall l | l in body :: !EndsBlock(l)
    requires Mentions(body, "Action=AssumeRole")
    requires Mentions(body, "X-Amz-Source-Account: " + md.accountId) && Mentions(body, "X-Amz-Source-Arn: " + md.instanceArn)
    ensures SomeRequestHasAll(md, before + ([start] + body) + after)
  {
    var request := [start] + body;
    assert request[1..] == body;
    hide StartsRequest, EndsBlock, Mentions, Around, SomeRequestHasAll;
    MentionsMore(start, body, "Action=AssumeRole");
    MentionsMore(start, body, "X-Amz-Source-Account: " + md.accountId);
    MentionsMore(start, body, "X-Amz-Source-Arn: " + md.instanceArn);
    assert Shows(md, request);
    hide Shows;
    LogMeans(md, before + request + after);
  }

  /**
    A log with a request of the newer format, whatever comes before and after it: the line with its
    prefix and any white space after it, then lines that end no block and that mention the action and
    both headers.
   */
  lemma NewerFormatFound(md: Metadata, before: seq<string>, prefix: string, w: string, body: seq<string>, after: seq<string>)
    requires Blank(w) && forall l | l in body :: !EndsBlock(l)
    requires Mentions(body, "Action=AssumeRole")
    requires Mentions(body, "X-Amz-Source-Account: " + md.accountId) && Mentions(body, "X-Amz-Source-Arn: " + md.instanceArn)
    ensures SomeRequestHasAll(md, before + ([prefix + "D! Request" + w] + body) + after)
  {
    var start := prefix + "D! Request" + w;
    assert EndsIn(start, "D! Request");
    assert StartsRequest(start);
    hide *;
    RequestFound(md, before, start, body, after);
  }

  /** The same of the older format, with any text on both sides of its marker. */
  lemma OlderFormatFound(md: Metadata, before: seq<string>, left: string, right: string, body: seq<string>, after: seq<string>)
    requires forall l | l in body :: !EndsBlock(l)
    requires Mentions(body, "Action=AssumeRole")
    requires Mentions(body, "X-Amz-Source-Account: " + md.accountId) && Mentions(body, "X-Amz-Source-Arn: " + md.instanceArn)
    ensures SomeRequestHasAll(md, before + ([left + "---[ REQUEST POST-SIGN ]---" + right] + body) + after)
  {
    var start := left + "---[ REQUEST POST-SIGN ]---" + right;
    assert Around(start, "---[ REQUEST POST-SIGN ]---");
    assert StartsRequest(start);
    hide *;
    RequestFound(md, before, start, body, after);
  }

  // ----- the scanner -----

  method CheckForConfusedDeputyHeaders(md: Metadata, httpDebugLog: seq<string>) returns (found: bool)
    ensures found <==> (exists l :: l in httpDebugLog && IsAccountHeader(md, l)) && (exists l :: l in httpDebugLog && IsArnHeader(md, l))
  {
    var foundSourceAccount, foundSourceArn := false, false;
    for i := 0 to |httpDebugLog|
      invariant foundSourceAccount <==> exists l :: l in httpDebugLog[..i] && IsAccountHeader(md, l)
      invariant foundSourceArn <==> exists l :: l in httpDebugLog[..i] && IsArnHeader(md, l)
    {
      var line := httpDebugLog[i];
      assert httpDebugLog[..i + 1] == httpDebugLog[..i] + [line];
      assert line in httpDebugLog[..i + 1];
      if IsAccountHeader(md, line) {
        foundSourceAccount := true;
      }
      if IsArnHeader(md, line) {
        foundSourceArn := true;
      }
    }
    assert httpDebugLog[..|httpDebugLog|] == httpDebugLog;
    found := foundSourceAccount && foundSourceArn;
  }

  method Evaluate(md: Metadata, block: seq<string>) returns (found: bool)
    ensures found <==> HasAllFacts(md, block)
  {
    var isStsAssumeRoleRequest := false;
    for i := 0 to |block|
      invariant !isStsAssumeRoleRequest
      invariant forall l | l in block[..i] :: !IsAssumeRole(l)
    {
      assert block[..i + 1] == block[..i] + [block[i]];
      if IsAssumeRole(block[i]) {
        isStsAssumeRoleRequest := true;
        break;
      }
    }
    assert block[..|block|] == block;
    found := false;
    if isStsAssumeRoleRequest {
      found := CheckForConfusedDeputyHeaders(md, block);
    }
  }

  // ----- what the scanner knows before line `n` -----

  /** A request block that runs up to line `n` starts at `i`. */
  ghost predicate OpenAt(lines: seq<string>, i: nat, n: nat) {
    WithinRequest(lines, i, n)
  }

  ghost predicate NoneOpen(lines: seq<string>, n: nat) {
    forall i: nat :: !OpenAt(lines, i, n)
  }

  /** Blocks with all the facts that were complete before line `n` are still open there. */
  ghost predicate NoneMissed(md: Metadata, lines: seq<string>, n: nat) {
    forall i: nat, j: nat | j <= n && WithinRequest(lines, i, j) && HasAllFacts(md, lines[i..j]) :: OpenAt(lines, i, n)
  }

  ghost predicate NoneFound(md: Metadata, lines: seq<string>, n: nat) {
    forall i: nat, j: nat | j <= n && WithinRequest(lines, i, j) :: !HasAllFacts(md, lines[i..j])
  }

  lemma FactsGrow(md: Metadata, lines: seq<string>, i: nat, j: nat, n: nat)
    requires i <= j <= n <= |lines| && HasAllFacts(md, lines[i..j])
    ensures HasAllFacts(md, lines[i..n])
  {
    assert lines[i..n] == lines[i..j] + lines[j..n];
  }

  lemma OneOpen(lines: seq<string>, i: nat, k: nat, n: nat)
    requires OpenAt(lines, i, n) && OpenAt(lines, k, n)
    ensures i == k
  {
    assert Terminates(lines[i]) && Terminates(lines[k]);
  }

  /** An open block that does not have all the facts: no block so far has. */
  lemma CheckedOpen(md: Metadata, lines: seq<string>, start: nat, n: nat)
    requires OpenAt(lines, start, n) && NoneMissed(md, lines, n) && !HasAllFacts(md, lines[start..n])
    ensures NoneFound(md, lines, n)
  {
    forall i: nat, j: nat | j <= n && WithinRequest(lines, i, j) ensures !HasAllFacts(md, lines[i..j]) {
      if HasAllFacts(md, lines[i..j]) {
        OneOpen(lines, i, start, n);
        FactsGrow(md, lines, i, j, n);
      }
    }
  }

  lemma NoneOpenNoneFound(md: Metadata, lines: seq<string>, n: nat)
    requires NoneOpen(lines, n) && NoneMissed(md, lines, n)
    ensures NoneFound(md, lines, n)
  {
  }

  /** A line that ends blocks leaves at most the block it starts itself. */
  lemma AfterTerminator(md: Metadata, lines: seq<string>, n: nat)
    requires n < |lines| && Terminates(lines[n]) && NoneFound(md, lines, n)
    ensures NoneMissed(md, lines, n + 1)
    ensures if IsRequestBlockStart(lines[n]) then OpenAt(lines, n, n + 1) else NoneOpen(lines, n + 1)
  {
  }

  lemma OtherLineKeepsOpen(lines: seq<string>, i: nat, n: nat)
    requires n < |lines| && !Terminates(lines[n])
    ensures OpenAt(lines, i, n + 1) <==> OpenAt(lines, i, n)
  {
    if i == n {
      StartTerminates(lines[n]);
    }
    hide Terminates, IsRequestBlockStart;
  }

  lemma StartTerminates(line: string)
    ensures IsRequestBlockStart(line) ==> Terminates(line)
  {
  }

  lemma AfterOtherLine(md: Metadata, lines: seq<string>, n: nat)
    requires n < |lines| && !Terminates(lines[n]) && NoneMissed(md, lines, n)
    ensures NoneMissed(md, lines, n + 1)
    ensures forall i: nat :: OpenAt(lines, i, n + 1) <==> OpenAt(lines, i, n)
  {
    hide Terminates, HasAllFacts, WithinRequest;
    forall i: nat ensures OpenAt(lines, i, n + 1) <==> OpenAt(lines, i, n) {
      OtherLineKeepsOpen(lines, i, n);
    }
  }

  /** A line that starts no block while none is open opens none. */
  lemma StillNoneOpen(md: Metadata, lines: seq<string>, n: nat)
    requires n < |lines| && !IsRequestBlockStart(lines[n]) && NoneOpen(lines, n) && NoneMissed(md, lines, n)
    ensures NoneMissed(md, lines, n + 1) && NoneOpen(lines, n + 1)
  {
    NoneOpenNoneFound(md, lines, n);
    hide Terminates, IsRequestBlockStart, HasAllFacts;
    var m := n + 1;
    forall i: nat ensures !OpenAt(lines, i, m) {
      NotOpened(lines, i, n);
    }
  }

  lemma NotOpened(lines: seq<string>, i: nat, n: nat)
    requires n < |lines| && !IsRequestBlockStart(lines[n]) && !OpenAt(lines, i, n)
    ensures !OpenAt(lines, i, n + 1)
  {
    hide Terminates, IsRequestBlockStart;
  }

  /** Scans the lines once; true exactly when some one request block contains all three facts. */
  method ScanForConfusedDeputyHeaders(md: Metadata, lines: seq<string>) returns (found: bool)
    ensures found <==> SomeRequestHasAll(md, lines)
    ensures found <==> LogShows(md, lines)
  {
    LogMeans(md, lines);
    hide LogShows, SomeRequestHasAll;
    hide IsHTTPDebugBlockStart, IsRequestBlockStart, IsEndMarker, WithinRequest, HasAllFacts, NoneMissed, NoneFound, NoneOpen, OpenAt;
    var inRequestBlock := false;
    var httpDebugLog: seq<string> := [];
    ghost var start: nat := 0;
    NothingScanned(md, lines);
    for n := 0 to |lines|
      invariant if inRequestBlock then start <= n && OpenAt(lines, start, n) && httpDebugLog == lines[start..n] else NoneOpen(lines, n)
      invariant NoneMissed(md, lines, n)
    {
      var line := lines[n];
      if IsHTTPDebugBlockStart(line) {
        if inRequestBlock {
          var all := Evaluate(md, httpDebugLog);
          if all {
            FoundOne(md, lines, start, n);
            return true;
          }
          CheckedOpen(md, lines, start, n);
        } else {
          NoneOpenNoneFound(md, lines, n);
        }
        AfterTerminator(md, lines, n);
        inRequestBlock := IsRequestBlockStart(line);
        httpDebugLog := [];
        if inRequestBlock {
          httpDebugLog := httpDebugLog + [line];
          start := n;
        }
        continue;
      }
      NotBlockStart(line);
      if inRequestBlock && IsEndMarker(line) {
        var all := Evaluate(md, httpDebugLog);
        if all {
          FoundOne(md, lines, start, n);
          return true;
        }
        CheckedOpen(md, lines, start, n);
        AfterTerminator(md, lines, n);
        inRequestBlock := false;
        httpDebugLog := [];
        continue;
      }
      if inRequestBlock {
        AfterOtherLine(md, lines, n);
        httpDebugLog := httpDebugLog + [line];
      } else {
        StillNoneOpen(md, lines, n);
      }
    }
    found := false;
    if inRequestBlock {
      found := Evaluate(md, httpDebugLog);
      if found {
        FoundOne(md, lines, start, |lines|);
      } else {
        CheckedOpen(md, lines, start, |lines|);
      }
    } else {
      NoneOpenNoneFound(md, lines, |lines|);
    }
    if !found {
      FoundNone(md, lines);
    }
  }

  lemma NothingScanned(md: Metadata, lines: seq<string>)
    ensures NoneMissed(md, lines, 0) && NoneOpen(lines, 0)
  {
  }

  lemma NotBlockStart(line: string)
    requires !IsHTTPDebugBlockStart(line)
    ensures !IsRequestBlockStart(line)
  {
  }

  lemma FoundOne(md: Metadata, lines: seq<string>, start: nat, n: nat)
    requires start <= n <= |lines| && OpenAt(lines, start, n) && HasAllFacts(md, lines[start..n])
    ensures SomeRequestHasAll(md, lines)
  {
  }

  lemma FoundNone(md: Metadata, lines: seq<string>)
    requires NoneFound(md, lines, |lines|)
    ensures !SomeRequestHasAll(md, lines)
  {
  }

  // ----- what the description implies -----

  /** Once a log passes, every extension of it passes. */
  lemma Monotone(md: Metadata, lines: seq<string>, more: seq<string>)
    ensures SomeRequestHasAll(md, lines) ==> SomeRequestHasAll(md, lines + more)
  {
    hide Terminates, IsRequestBlockStart, HasAllFacts;
    if i: nat, j: nat :| WithinRequest(lines, i, j) && HasAllFacts(md, lines[i..j]) {
      assert (lines + more)[i..j] == lines[i..j];
      assert WithinRequest(lines + more, i, j);
    }
  }

  lemma Shifted(md: Metadata, before: seq<string>, after: seq<string>)
    ensures SomeRequestHasAll(md, after) ==> SomeRequestHasAll(md, before + after)
  {
    hide Terminates, IsRequestBlockStart, HasAllFacts;
    var lines, n := before + after, |before|;
    if i: nat, j: nat :| WithinRequest(after, i, j) && HasAllFacts(md, after[i..j]) {
      assert lines[n + i..n + j] == after[i..j];
      assert forall k | n + i < k < n + j :: lines[k] == after[k - n];
      assert WithinRequest(lines, n + i, n + j);
    }
  }

  /** A request block of two logs put together that does not straddle the seam is one of either. */
  lemma OnOneSide(md: Metadata, before: seq<string>, after: seq<string>, i: nat, j: nat)
    requires after != [] && Terminates(after[0])
    requires WithinRequest(before + after, i, j)
    ensures HasAllFacts(md, (before + after)[i..j]) ==> SomeRequestHasAll(md, before) || SomeRequestHasAll(md, after)
  {
    hide Terminates, IsRequestBlockStart, HasAllFacts;
    var lines, n := before + after, |before|;
    assert WithinRequest(lines, i, j) && Terminates(lines[n]);
    if i < n {
      assert j <= n;
      assert before[i..j] == lines[i..j];
      assert forall k | i <= k < j :: before[k] == lines[k];
      assert WithinRequest(before, i, j);
    } else {
      assert after[i - n..j - n] == lines[i..j];
      assert forall k | i - n < k < j - n :: after[k] == lines[k + n];
      assert WithinRequest(after, i - n, j - n);
    }
  }

  /** Facts on different sides of a line that starts or ends a block never combine. */
  lemma BlocksDoNotCombine(md: Metadata, before: seq<string>, after: seq<string>)
    requires after != [] && Terminates(after[0])
    ensures SomeRequestHasAll(md, before + after) <==> SomeRequestHasAll(md, before) || SomeRequestHasAll(md, after)
  {
    hide Terminates, IsRequestBlockStart, HasAllFacts;
    Monotone(md, before, after);
    Shifted(md, before, after);
    if SomeRequestHasAll(md, before + after) {
      var i: nat, j: nat :| WithinRequest(before + after, i, j) && HasAllFacts(md, (before + after)[i..j]);
      OnOneSide(md, before, after, i, j);
    }
  }
}
