/** Configuration and access-policy lookups of the Courier mail server
    (courier/config.py): the cached host identity, local and hosted domains,
    aliases and the smtpaccess database.

    A database that may fail to open is a `Db`, None standing for the anydbm
    error. A configuration file that may be missing is an `Option<seq<string>>`
    of its lines without their line ends, and the result of read1line (the
    stripped first line of a file, None if the file is missing) is an
    `Option<string>`. */
module Config {
  import opened Wrappers
  import opened Text

  type Db = Option<map<string, string>>

  /** Courier's installation prefix. */
  const Prefix := "/usr/lib/courier"

  // ------------------------------------------------------------ host identity

  /** Python truth of a read1line result: the file exists and its first line is not blank. */
  predicate Given(v: Option<string>) {
    v.Some? && v.value != ""
  }

  /** The value a cached lookup yields: the cache if set, else the file value if
      given, else the fallback. */
  function Resolved(cache: string, file: Option<string>, fallback: string): (r: string)
    ensures cache != "" ==> r == cache
    ensures cache == "" && Given(file) ==> r == file.value
    ensures cache == "" && !Given(file) ==> r == fallback
  {
    if cache != "" then cache else if Given(file) then file.value else fallback
  }

  /** The DSN sender used when no dsnfrom file is configured. */
  function DsnTemplate(me: string): string {
    "\"Courier mail server at " + me + "\" <@>"
  }

  /** The three lazily filled caches of me(), defaultdomain() and dsnfrom().
      An empty field is an unset cache: the functions test the slot for truth,
      so None and '' behave alike. */
  class Identity {
    var meCache: string
    var defaultDomainCache: string
    var dsnFromCache: string

    constructor ()
      ensures meCache == "" && defaultDomainCache == "" && dsnFromCache == ""
    {
      meCache, defaultDomainCache, dsnFromCache := "", "", "";
    }

    /** me(): the cache, else the `me` file, else the host name; whatever it
        returns is cached, even an empty host name. */
    method Me(meFile: Option<string>, hostname: string) returns (r: string)
      modifies this
      ensures r == Resolved(old(meCache), meFile, hostname)
      ensures meCache == r
      ensures defaultDomainCache == old(defaultDomainCache) && dsnFromCache == old(dsnFromCache)
    {
      if meCache != "" {
        return meCache;
      }
      if Given(meFile) {
        meCache := meFile.value;
        return meFile.value;
      }
      meCache := hostname;
      return hostname;
    }

    /** defaultdomain(): the cache, else the `defaultdomain` file, else me().
        Only a value read from the file is cached. */
    method DefaultDomain(defaultDomainFile: Option<string>, meFile: Option<string>, hostname: string)
      returns (r: string)
      modifies this
      ensures r == Resolved(old(defaultDomainCache), defaultDomainFile,
                            Resolved(old(meCache), meFile, hostname))
      ensures defaultDomainCache == Resolved(old(defaultDomainCache), defaultDomainFile, "")
      ensures meCache == if old(defaultDomainCache) == "" && !Given(defaultDomainFile)
                         then Resolved(old(meCache), meFile, hostname) else old(meCache)
      ensures dsnFromCache == old(dsnFromCache)
    {
      if defaultDomainCache != "" {
        return defaultDomainCache;
      }
      if Given(defaultDomainFile) {
        defaultDomainCache := defaultDomainFile.value;
        return defaultDomainFile.value;
      }
      r := Me(meFile, hostname);
    }

    /** dsnfrom(): the cache, else the `dsnfrom` file, else a sender built from
        me(). Only a value read from the file is cached. */
    method DsnFrom(dsnFromFile: Option<string>, meFile: Option<string>, hostname: string)
      returns (r: string)
      modifies this
      ensures r == Resolved(old(dsnFromCache), dsnFromFile,
                            DsnTemplate(Resolved(old(meCache), meFile, hostname)))
      ensures dsnFromCache == Resolved(old(dsnFromCache), dsnFromFile, "")
      ensures meCache == if old(dsnFromCache) == "" && !Given(dsnFromFile)
                         then Resolved(old(meCache), meFile, hostname) else old(meCache)
      ensures defaultDomainCache == old(defaultDomainCache)
    {
      if dsnFromCache != "" {
        return dsnFromCache;
      }
      if Given(dsnFromFile) {
        dsnFromCache := dsnFromFile.value;
        return dsnFromFile.value;
      }
      var me := Me(meFile, hostname);
      r := DsnTemplate(me);
    }
  }

  /** Two calls of me(): once the first has returned a non-empty name, the
      second returns it again whatever the files and host name say by then. */
  method MeIsStable(id: Identity, meFile1: Option<string>, hostname1: string,
                    meFile2: Option<string>, hostname2: string)
    returns (first: string, second: string)
    modifies id
    ensures first != "" ==> second == first
  {
    first := id.Me(meFile1, hostname1);
    second := id.Me(meFile2, hostname2);
  }

  /** defaultdomain() does not cache its fallback: with no defaultdomain file it
      answers me(), and once the file appears it answers the file's value. */
  method DefaultDomainFallbackNotCached() returns (first: string, second: string)
    ensures first == "mail.example.com" && second == "example.com"
  {
    var id := new Identity();
    first := id.DefaultDomain(None, Some("mail.example.com"), "localhost");
    second := id.DefaultDomain(Some("example.com"), Some("mail.example.com"), "localhost");
  }

  // ------------------------------------------------------------ local domains

  /** Python's `s[-n:]` for n >= 1: the last n characters, or all of s when it is shorter. */
  function TailSlice(s: string, n: nat): string
  {
    if 1 <= n <= |s| then s[|s| - n..] else s
  }

  /** What one stripped rule of the locals file says about `domain`: `!d` vetoes
      d, `.suffix` accepts every domain ending in that string, a literal accepts
      itself; None when the rule does not fire. */
  function RuleVerdict(rule: string, domain: string): Option<bool>
  {
    if rule == "" then None
    else if rule[0] == '!' && rule[1..] == domain then Some(false)
    else if rule[0] == '.' && rule == TailSlice(domain, |rule|) then Some(true)
    else if rule == domain then Some(true)
    else None
  }

  /** A line that config.py:113 takes for a comment or a blank line. */
  predicate IsCommentLine(raw: string) {
    raw == "" || raw[0] == '#'
  }

  /** The verdict of one line of the locals file; comment, blank and
      white-space-only lines say nothing. */
  function LineVerdict(raw: string, domain: string): Option<bool>
  {
    if IsCommentLine(raw) then None else RuleVerdict(Strip(raw), domain)
  }

  /** The verdict of the first line, in file order, that says anything. */
  function FirstVerdict(lines: seq<string>, domain: string): Option<bool>
  {
    if lines == [] then None
    else if LineVerdict(lines[0], domain).Some? then LineVerdict(lines[0], domain)
    else FirstVerdict(lines[1..], domain)
  }

  /** isLocal(domain): without a locals file only me() is local; with one, the
      first rule that fires decides and no rule firing means not local. */
  predicate IsLocalDomain(locals: Option<seq<string>>, me: string, domain: string)
  {
    match locals
    case None => domain == me
    case Some(lines) => FirstVerdict(lines, domain) == Some(true)
  }

  /** isLocal: scans the locals file in file order, skipping comment, blank and
      white-space-only lines. */
  method IsLocal(locals: Option<seq<string>>, me: string, domain: string) returns (local: bool)
    ensures local == IsLocalDomain(locals, me, domain)
  {
    if locals.None? {
      return domain == me;
    }
    var lines := locals.value;
    var i := 0;
    while i < |lines|
      invariant 0 <= i <= |lines|
      invariant FirstVerdict(lines[i..], domain) == FirstVerdict(lines, domain)
    {
      var line := lines[i];
      assert lines[i..][1..] == lines[i + 1..];
      if line == "" || line[0] == '#' {
        i := i + 1;
        continue;
      }
      line := Strip(line);
      if line == "" {
        i := i + 1;
        continue;
      }
      if line[0] == '!' && line[1..] == domain {
        return false;
      }
      if line[0] == '.' && line == TailSlice(domain, |line|) {
        return true;
      }
      if line == domain {
        return true;
      }
      i := i + 1;
    }
    return false;
  }

  /** A `.`-rule fires exactly when it is a string suffix of the domain; the
      test is on raw characters, not on label boundaries. */
  lemma DotRuleIsStringSuffix(rule: string, domain: string)
    requires rule != [] && rule[0] == '.'
    ensures RuleVerdict(rule, domain) == Some(true)
            <==> |rule| <= |domain| && domain[|domain| - |rule|..] == rule
    ensures RuleVerdict(rule, domain) != Some(false)
  {
    if |rule| > |domain| {
      assert rule != domain;
    }
  }

  /** The first line that says anything decides: when every line before k
      says nothing and line k says something, the scan answers what line k says. */
  lemma {:induction false} FirstRuleDecides(lines: seq<string>, domain: string, k: nat)
    requires k < |lines| && LineVerdict(lines[k], domain).Some?
    requires forall j :: 0 <= j < k ==> LineVerdict(lines[j], domain).None?
    ensures FirstVerdict(lines, domain) == LineVerdict(lines[k], domain)
  {
    if k > 0 {
      assert lines[1..][k - 1] == lines[k];
      FirstRuleDecides(lines[1..], domain, k - 1);
    }
  }

  /** No line saying anything is the only way for the scan to find no verdict,
      and then the domain is not local. */
  lemma {:induction false} NoRuleFires(lines: seq<string>, domain: string)
    ensures FirstVerdict(lines, domain).None?
            <==> forall k :: 0 <= k < |lines| ==> LineVerdict(lines[k], domain).None?
  {
    if lines != [] {
      NoRuleFires(lines[1..], domain);
      assert forall k :: 0 < k < |lines| ==> lines[k] == lines[1..][k - 1];
    }
  }

  lemma SuffixRuleFires()
    ensures LineVerdict(".example.com", "sub.example.com") == Some(true)
  {
    var rule, domain := ".example.com", "sub.example.com";
    assert !IsCommentLine(rule) && IsStripped(rule);
    assert TailSlice(domain, |rule|) == rule;
  }

  lemma VetoRuleFires()
    ensures LineVerdict("!sub.example.com", "sub.example.com") == Some(false)
  {
    var rule, domain := "!sub.example.com", "sub.example.com";
    assert !IsCommentLine(rule) && IsStripped(rule);
    assert rule[1..] == domain;
  }

  /** File order decides, not specificity: a `.example.com` rule ahead of a
      `!sub.example.com` veto makes sub.example.com local, the reverse order
      does not. */
  lemma LocalsFileOrderMatters()
    ensures IsLocalDomain(Some([".example.com", "!sub.example.com"]), "", "sub.example.com")
    ensures !IsLocalDomain(Some(["!sub.example.com", ".example.com"]), "", "sub.example.com")
  {
    SuffixRuleFires();
    VetoRuleFires();
    FirstRuleDecides([".example.com", "!sub.example.com"], "sub.example.com", 0);
    FirstRuleDecides(["!sub.example.com", ".example.com"], "sub.example.com", 0);
  }

  // ----------------------------------- isLocal as written (config.py:111-123)

  /** What one pass of the loop at config.py:112-122 leads to: an answer, the
      index of the line held in `line` for the next pass, or an IndexError. */
  datatype Scan = Decided(local: bool) | Next(line: nat) | Fault

  /** One pass of the isLocal loop exactly as written, `i` being the index of
      the line it holds (i == |lines| once readline has returned ''). A comment
      or blank line `continue`s without reading another line; a
      white-space-only line strips to '' and faults on `line[0]`. */
  function StepAsWritten(lines: seq<string>, domain: string, i: nat): (s: Scan)
    requires i <= |lines|
    ensures s.Next? ==> s.line <= |lines|
  {
    if i == |lines| then Decided(false)
    else if IsCommentLine(lines[i]) then Next(i)
    else if Strip(lines[i]) == "" then Fault
    else match RuleVerdict(Strip(lines[i]), domain)
      case Some(b) => Decided(b)
      case None => Next(i + 1)
  }

  /** At most `fuel` passes of the loop as written, starting on line i. */
  function RunAsWritten(lines: seq<string>, domain: string, i: nat, fuel: nat): Scan
    requires i <= |lines|
    decreases fuel
  {
    if fuel == 0 then Next(i)
    else match StepAsWritten(lines, domain, i)
      case Next(j) => RunAsWritten(lines, domain, j, fuel - 1)
      case s => s
  }

  /** As written, the loop never leaves a comment or blank line: however many
      passes it makes, it is still on that line. */
  lemma {:induction false} CommentLineLoopsForever(lines: seq<string>, domain: string, i: nat, fuel: nat)
    requires i < |lines| && IsCommentLine(lines[i])
    ensures RunAsWritten(lines, domain, i, fuel) == Next(i)
    decreases fuel
  {
    if fuel > 0 {
      CommentLineLoopsForever(lines, domain, i, fuel - 1);
    }
  }

  /** A locals file that opens with a comment: the corrected scan finds the
      literal rule, the scan as written never gets past the comment. */
  lemma CommentedLocalsCounterexample(fuel: nat)
    ensures IsLocalDomain(Some(["# local domains", "example.com"]), "", "example.com")
    ensures RunAsWritten(["# local domains", "example.com"], "example.com", 0, fuel) == Next(0)
  {
    CommentLineLoopsForever(["# local domains", "example.com"], "example.com", 0, fuel);
    assert Strip("example.com") == "example.com";
  }

  /** A white-space-only line: the corrected scan skips it and answers false,
      the scan as written raises IndexError on it. */
  lemma BlankRuleCounterexample()
    ensures !IsLocalDomain(Some(["example.org", " \t"]), "", "example.com")
    ensures RunAsWritten(["example.org", " \t"], "example.com", 0, 2) == Fault
  {
    var lines, domain := ["example.org", " \t"], "example.com";
    assert IsStripped(lines[0]) && lines[0] != domain;
    assert RuleVerdict(Strip(lines[0]), domain).None?;
    assert Strip(lines[1]) == "" by {
      assert Strip(lines[1]) == Strip(lines[1][1..]) == Strip(lines[1][1..][1..]);
    }
    NoRuleFires(lines, domain);
  }

  /** On a locals file without comment, blank or white-space-only lines the
      loop as written terminates within one pass per line, with the answer the
      corrected scan gives. */
  lemma {:induction false} AsWrittenAgreesOnPlainFiles(lines: seq<string>, domain: string, i: nat)
    requires i <= |lines|
    requires forall k :: 0 <= k < |lines| ==> !IsCommentLine(lines[k]) && Strip(lines[k]) != ""
    ensures RunAsWritten(lines, domain, i, |lines| - i + 1)
            == Decided(FirstVerdict(lines[i..], domain) == Some(true))
    decreases |lines| - i
  {
    if i < |lines| {
      assert lines[i..][1..] == lines[i + 1..];
      if StepAsWritten(lines, domain, i).Next? {
        AsWrittenAgreesOnPlainFiles(lines, domain, i + 1);
      }
    }
  }

  // ----------------------------------------------------------- hosted domains

  /** The key config.py:140 tries for label x: a dot and labels x.. joined. */
  function SuffixKey(parts: seq<string>, x: nat): string
    requires x <= |parts|
  {
    "." + Join(parts[x..], '.')
  }

  /** isHosteddomain(domain): the database opens and holds the domain itself or
      the key for one of its parent suffixes. */
  predicate HostedDomain(db: Db, domain: string)
  {
    db.Some? &&
    (domain in db.value ||
     exists x :: 1 <= x < |Split(domain, '.')| && SuffixKey(Split(domain, '.'), x) in db.value)
  }

  /** isHosteddomain: tries a.b.c, then .b.c, then .c. */
  method IsHostedDomain(db: Db, domain: string) returns (hosted: bool)
    ensures hosted == HostedDomain(db, domain)
  {
    if db.None? {
      return false;
    }
    if domain in db.value {
      return true;
    }
    var parts := Split(domain, '.');
    var x := 1;
    while x < |parts|
      invariant 1 <= x <= |parts|
      invariant forall y :: 1 <= y < x ==> SuffixKey(parts, y) !in db.value
    {
      if SuffixKey(parts, x) in db.value {
        return true;
      }
      x := x + 1;
    }
    return false;
  }

  /** A domain with more than one label splits at its first dot, and the
      first parent-suffix key is the tail from that dot. */
  lemma FirstDot(domain: string) returns (j: nat)
    requires 1 < |Split(domain, '.')|
    ensures j < |domain| && domain[j] == '.' && '.' !in domain[..j]
    ensures Split(domain, '.') == [domain[..j]] + Split(domain[j + 1..], '.')
    ensures SuffixKey(Split(domain, '.'), 1) == domain[j..]
  {
    j := IndexOf(domain, '.').value;
    var rest := domain[j + 1..];
    var parts := Split(domain, '.');
    assert parts[1..] == Split(rest, '.');
    JoinSplit(rest, '.');
    assert domain[j..] == "." + rest;
  }

  lemma SuffixKeyShift(parts: seq<string>, x: nat)
    requires 1 <= x <= |parts|
    ensures SuffixKey(parts, x) == SuffixKey(parts[1..], x - 1)
  {
    assert parts[x..] == parts[1..][x - 1..];
  }

  /** Every key tried for a parent suffix is the tail of the domain from one of its dots. */
  lemma {:induction false} SuffixKeyIsDotTail(domain: string, x: nat) returns (i: nat)
    requires 1 <= x < |Split(domain, '.')|
    ensures i < |domain| && domain[i] == '.' && SuffixKey(Split(domain, '.'), x) == domain[i..]
    decreases |domain|
  {
    var j := FirstDot(domain);
    if x == 1 {
      i := j;
    } else {
      var parts, rest := Split(domain, '.'), domain[j + 1..];
      assert parts[1..] == Split(rest, '.');
      assert SuffixKey(parts, x) == SuffixKey(Split(rest, '.'), x - 1) by {
        SuffixKeyShift(parts, x);
      }
      var i' := SuffixKeyIsDotTail(rest, x - 1);
      i := j + 1 + i';
      assert domain[i..] == rest[i'..];
    }
  }

  /** Every tail of the domain from one of its dots is tried as a parent-suffix key. */
  lemma {:induction false} DotTailIsSuffixKey(domain: string, i: nat) returns (x: nat)
    requires i < |domain| && domain[i] == '.'
    ensures 1 <= x < |Split(domain, '.')| && SuffixKey(Split(domain, '.'), x) == domain[i..]
    decreases |domain|
  {
    assert '.' in domain;
    assert |Split(domain, '.')| > 1;
    var j := FirstDot(domain);
    assert j <= i;
    if i == j {
      x := 1;
    } else {
      var rest := domain[j + 1..];
      var x' := DotTailIsSuffixKey(rest, i - j - 1);
      x := x' + 1;
      SuffixKeyShift(Split(domain, '.'), x);
      assert domain[i..] == rest[i - j - 1..];
    }
  }

  /** Hosted-domain lookup is a raw suffix test at dot positions: the domain is
      hosted exactly when the database opens and holds the domain or the tail of
      the domain starting at one of its dots. */
  lemma HostedIsDotTailLookup(db: Db, domain: string)
    ensures HostedDomain(db, domain)
            <==> db.Some? && (domain in db.value ||
                              exists i :: 0 <= i < |domain| && domain[i] == '.' && domain[i..] in db.value)
  {
    if db.Some? && domain !in db.value {
      var parts := Split(domain, '.');
      if exists x :: 1 <= x < |parts| && SuffixKey(parts, x) in db.value {
        var x :| 1 <= x < |parts| && SuffixKey(parts, x) in db.value;
        var i := SuffixKeyIsDotTail(domain, x);
      }
      if exists i :: 0 <= i < |domain| && domain[i] == '.' && domain[i..] in db.value {
        var i :| 0 <= i < |domain| && domain[i] == '.' && domain[i..] in db.value;
        var x := DotTailIsSuffixKey(domain, i);
      }
    }
  }

  // ------------------------------------------------------------------ aliases

  /** The key getAlias looks up: `name@dom` with a local `dom` becomes
      `name@me`, a bare `name` becomes `name@me`, anything else is kept. */
  function Qualify(locals: Option<seq<string>>, me: string, address: string): (q: string)
    ensures '@' in q
    ensures q == address || (|q| > |me| && q[|q| - |me| - 1..] == "@" + me)
    ensures '@' !in address ==> address <= q
  {
    match IndexOf(address, '@')
    case Some(at) =>
      if IsLocalDomain(locals, me, address[at + 1..]) then
        AtMe(address[..at], me);
        address[..at] + "@" + me
      else address
    case None =>
      AtMe(address, me);
      address + "@" + me
  }

  lemma AtMe(name: string, me: string)
    ensures var q := name + "@" + me;
      '@' in q && name <= q && q[|q| - |me| - 1..] == "@" + me
  {
    var q := name + "@" + me;
    assert q[|name|] == '@';
    assert q[|q| - |me| - 1..] == "@" + me;
  }

  /** getAlias(address): the stripped alias value split at line ends, or None
      when the aliases database cannot be opened or has no such key. */
  function Alias(aliases: Db, locals: Option<seq<string>>, me: string, address: string): (r: Option<seq<string>>)
    ensures r.None? <==> aliases.None? || Qualify(locals, me, address) !in aliases.value
    ensures r.Some? ==> |r.value| >= 1 && forall i :: 0 <= i < |r.value| ==> '\n' !in r.value[i]
  {
    var key := Qualify(locals, me, address);
    if aliases.None? || key !in aliases.value then None
    else Some(Split(Strip(aliases.value[key]), '\n'))
  }

  /** The key getAlias looks up: the part before the first `@` is kept; the
      domain becomes me() exactly when the address has none or its domain is
      local, and is kept otherwise. */
  lemma QualifyRule(locals: Option<seq<string>>, me: string, address: string)
    ensures var q := Qualify(locals, me, address);
      && Before(q, '@') == Before(address, '@')
      && After(q, '@') == if '@' !in address || IsLocalDomain(locals, me, After(address, '@')) then me
                          else After(address, '@')
  {
    var q := Qualify(locals, me, address);
    match IndexOf(address, '@')
    case Some(at) =>
      assert Before(address, '@') == address[..at] && After(address, '@') == address[at + 1..];
      if IsLocalDomain(locals, me, address[at + 1..]) {
        assert q[at] == '@' && q[..at] == address[..at];
        FirstIndexUnique(q, '@', at);
        assert q[at + 1..] == me;
      }
    case None =>
      assert q[|address|] == '@' && q[..|address|] == address;
      FirstIndexUnique(q, '@', |address|);
      assert q[|address| + 1..] == me;
  }

  /** The local part before the first `@` survives qualification, and the
      result always has an `@`. */
  lemma QualifyKeepsLocalPart(locals: Option<seq<string>>, me: string, address: string)
    ensures var q := Qualify(locals, me, address);
            '@' in q &&
            q[..IndexOf(q, '@').value] == (if '@' in address then address[..IndexOf(address, '@').value] else address)
  {
    var q := Qualify(locals, me, address);
    match IndexOf(address, '@')
    case Some(at) =>
      if q != address {
        assert q[at] == '@' && q[..at] == address[..at];
        assert IndexOf(q, '@') == Some(at) by { FirstIndexUnique(q, '@', at); }
      }
    case None =>
      assert q[|address|] == '@' && q[..|address|] == address;
      assert IndexOf(q, '@') == Some(|address|) by { FirstIndexUnique(q, '@', |address|); }
  }

  /** The first occurrence is the only index with `c` and no `c` before it. */
  lemma FirstIndexUnique(s: string, c: char, i: nat)
    requires i < |s| && s[i] == c && c !in s[..i]
    ensures IndexOf(s, c) == Some(i)
  {
  }

  /** Qualifying twice is qualifying once. */
  lemma QualifyIdempotent(locals: Option<seq<string>>, me: string, address: string)
    ensures Qualify(locals, me, Qualify(locals, me, address)) == Qualify(locals, me, address)
  {
    var q := Qualify(locals, me, address);
    match IndexOf(address, '@')
    case Some(at) =>
      if q != address {
        assert q[at] == '@' && q[..at] == address[..at];
        FirstIndexUnique(q, '@', at);
        assert q[at + 1..] == me;
        assert q[..at] + "@" + me == q;
      }
    case None =>
      assert q[|address|] == '@' && q[..|address|] == address;
      FirstIndexUnique(q, '@', |address|);
      assert q[|address| + 1..] == me;
  }

  /** A hit gives the list whose newline-join is the stripped stored value; a
      missing key or an unopenable database gives None. */
  lemma AliasExpansion(aliases: Db, locals: Option<seq<string>>, me: string, address: string)
    ensures var key := Qualify(locals, me, address);
            Alias(aliases, locals, me, address).None? <==> aliases.None? || key !in aliases.value
    ensures var key := Qualify(locals, me, address);
            Alias(aliases, locals, me, address).Some? ==>
              var xs := Alias(aliases, locals, me, address).value;
              |xs| >= 1 && Join(xs, '\n') == Strip(aliases.value[key]) &&
              forall i :: 0 <= i < |xs| ==> '\n' !in xs[i]
  {
    var key := Qualify(locals, me, address);
    if aliases.Some? && key in aliases.value {
      JoinSplit(Strip(aliases.value[key]), '\n');
    }
  }

  // ------------------------------------------------------------- smtpaccess

  /** The separator smtpaccess splits an address on: `.` if present, else `:`. */
  function Separator(ip: string): Option<char>
  {
    if '.' in ip then Some('.') else if ':' in ip then Some(':') else None
  }

  /** The loop at config.py:187-196: try the candidate, else cut it before its
      last separator; an empty candidate or one without a separator ends it. */
  function Lookup(entries: map<string, string>, ip: string, sep: char): Option<string>
    decreases |ip|
  {
    if ip == "" then None
    else if ip in entries then Some(entries[ip])
    else match LastIndexOf(ip, sep)
      case None => None
      case Some(ri) => Lookup(entries, ip[..ri], sep)
  }

  /** smtpaccess(ip): None for an address without separator or an unopenable
      database, else the longest-prefix lookup. */
  function AccessRecord(db: Db, ip: string): Option<string>
  {
    match Separator(ip)
    case None => None
    case Some(sep) => if db.None? then None else Lookup(db.value, ip, sep)
  }

  /** smtpaccess. */
  method SmtpAccess(db: Db, ip: string) returns (r: Option<string>)
    ensures r == AccessRecord(db, ip)
  {
    var sep: char;
    if '.' in ip {
      sep := '.';
    } else if ':' in ip {
      sep := ':';
    } else {
      return None;
    }
    if db.None? {
      return None;
    }
    var entries := db.value;
    var candidate := ip;
    while candidate != ""
      invariant Lookup(entries, candidate, sep) == Lookup(entries, ip, sep)
      decreases |candidate|
    {
      if candidate in entries {
        return Some(entries[candidate]);
      }
      var ri := LastIndexOf(candidate, sep);
      if ri.None? {
        return None;
      }
      candidate := candidate[..ri.value];
    }
    return None;
  }

  /** n cuts ip at a segment boundary: the whole address, or a non-empty prefix
      followed by a separator. */
  predicate IsCut(ip: string, n: int, sep: char) {
    0 < n <= |ip| && (n == |ip| || ip[n] == sep)
  }

  /** Longest match wins: the lookup finds nothing exactly when no cut of the
      address is a key, and otherwise answers the value of the longest cut that
      is a key. */
  lemma {:induction false} LongestPrefixMatch(entries: map<string, string>, ip: string, sep: char)
    ensures Lookup(entries, ip, sep).None? <==> forall n :: IsCut(ip, n, sep) ==> ip[..n] !in entries
    ensures Lookup(entries, ip, sep).Some? ==>
              exists n :: IsCut(ip, n, sep) && ip[..n] in entries &&
                          Lookup(entries, ip, sep) == Some(entries[ip[..n]]) &&
                          forall m :: IsCut(ip, m, sep) && n < m ==> ip[..m] !in entries
    decreases |ip|
  {
    if ip == "" {
    } else if ip in entries {
      assert IsCut(ip, |ip|, sep) && ip[..|ip|] == ip;
    } else {
      match LastIndexOf(ip, sep)
      case None =>
        forall n | IsCut(ip, n, sep) ensures ip[..n] !in entries {
          assert n == |ip|;
          assert ip[..n] == ip;
        }
      case Some(ri) =>
        var p := ip[..ri];
        LongestPrefixMatch(entries, p, sep);
        forall n | IsCut(ip, n, sep) && n != |ip| ensures IsCut(p, n, sep) && ip[..n] == p[..n] {
          assert n <= ri;
        }
        forall n | IsCut(p, n, sep) ensures IsCut(ip, n, sep) && ip[..n] == p[..n] { }
        assert ip[..|ip|] == ip;
        if Lookup(entries, p, sep).Some? {
          var n :| IsCut(p, n, sep) && p[..n] in entries &&
                   Lookup(entries, p, sep) == Some(entries[p[..n]]) &&
                   forall m :: IsCut(p, m, sep) && n < m ==> p[..m] !in entries;
          assert IsCut(ip, n, sep) && ip[..n] == p[..n];
        }
    }
  }

  /** What one comma-separated token of an access record says about `key`:
      the bare flag gives '', `key=value` gives value, anything else nothing. */
  function TokenValue(key: string, token: string): Option<string>
  {
    if token == key then Some("")
    else if key + "=" <= token then Some(token[|key| + 1..])
    else None
  }

  /** The value of the first token that mentions `key`. */
  function FirstValue(key: string, tokens: seq<string>): Option<string>
  {
    if tokens == [] then None
    else if TokenValue(key, tokens[0]).Some? then TokenValue(key, tokens[0])
    else FirstValue(key, tokens[1..])
  }

  /** getSmtpaccessVal(key, ip): None when no record matches the address or no
      token of it mentions key, else the value of the first token that does. */
  function SmtpaccessVal(db: Db, key: string, ip: string): Option<string>
  {
    match AccessRecord(db, ip)
    case None => None
    case Some(record) => FirstValue(key, Split(record, ','))
  }

  /** getSmtpaccessVal. */
  method GetSmtpaccessVal(db: Db, key: string, ip: string) returns (r: Option<string>)
    ensures r == SmtpaccessVal(db, key, ip)
  {
    var record := SmtpAccess(db, ip);
    if record.None? {
      return None;
    }
    var tokens := Split(record.value, ',');
    var i := 0;
    while i < |tokens|
      invariant 0 <= i <= |tokens|
      invariant FirstValue(key, tokens[i..]) == FirstValue(key, tokens)
    {
      var token := tokens[i];
      assert tokens[i..][1..] == tokens[i + 1..];
      if token == key {
        return Some("");
      }
      if key + "=" <= token {
        return Some(token[|key| + 1..]);
      }
      i := i + 1;
    }
    return None;
  }

  /** The first token that mentions the key decides: nothing when no token
      does, '' for a bare flag, the text after `key=` otherwise. */
  lemma {:induction false} FirstMatchingToken(key: string, tokens: seq<string>)
    ensures FirstValue(key, tokens).None? <==>
              forall i :: 0 <= i < |tokens| ==> TokenValue(key, tokens[i]).None?
    ensures FirstValue(key, tokens).Some? ==>
              exists i :: 0 <= i < |tokens| &&
                (forall j :: 0 <= j < i ==> TokenValue(key, tokens[j]).None?) &&
                ((tokens[i] == key && FirstValue(key, tokens) == Some("")) ||
                 tokens[i] == key + "=" + FirstValue(key, tokens).value)
  {
    if tokens != [] {
      FirstMatchingToken(key, tokens[1..]);
      if TokenValue(key, tokens[0]).Some? {
        if tokens[0] != key {
          assert tokens[0] == key + "=" + tokens[0][|key| + 1..];
        }
      } else {
        if FirstValue(key, tokens).Some? {
          var i :| 0 <= i < |tokens[1..]| &&
                   (forall j :: 0 <= j < i ==> TokenValue(key, tokens[1..][j]).None?) &&
                   ((tokens[1..][i] == key && FirstValue(key, tokens[1..]) == Some("")) ||
                    tokens[1..][i] == key + "=" + FirstValue(key, tokens[1..]).value);
          assert tokens[i + 1] == tokens[1..][i];
          forall j | 0 <= j < i + 1 ensures TokenValue(key, tokens[j]).None? {
            if j > 0 { assert tokens[j] == tokens[1..][j - 1]; }
          }
        }
        forall i | 0 <= i < |tokens[1..]| ensures tokens[1..][i] == tokens[i + 1] { }
      }
    }
  }

  /** isRelayed(ip): a RELAYCLIENT value, even an empty one, allows relaying. */
  function IsRelayed(db: Db, ip: string): (b: bool)
    ensures b ==> db.Some? && ('.' in ip || ':' in ip) && AccessRecord(db, ip).Some?
  {
    SmtpaccessVal(db, "RELAYCLIENT", ip).Some?
  }

  /** isWhiteblocked(ip): the BLOCK value is exactly ''. */
  function IsWhiteblocked(db: Db, ip: string): (b: bool)
    ensures b ==> db.Some? && ('.' in ip || ':' in ip) && GetBlockVal(db, ip) == Some("")
  {
    SmtpaccessVal(db, "BLOCK", ip) == Some("")
  }

  /** getBlockVal(ip): the BLOCK value, unchanged. */
  function GetBlockVal(db: Db, ip: string): (r: Option<string>)
    ensures r.Some? ==> db.Some? && ('.' in ip || ':' in ip) && AccessRecord(db, ip).Some?
  {
    SmtpaccessVal(db, "BLOCK", ip)
  }

  /** Relaying is allowed exactly when a record matches the address and one of
      its tokens mentions RELAYCLIENT, as a bare flag or with a value. */
  lemma RelayDecision(db: Db, ip: string, record: string)
    requires AccessRecord(db, ip) == Some(record)
    ensures IsRelayed(db, ip) <==>
              exists i :: 0 <= i < |Split(record, ',')| && TokenValue("RELAYCLIENT", Split(record, ',')[i]).Some?
  {
    assert SmtpaccessVal(db, "RELAYCLIENT", ip) == FirstValue("RELAYCLIENT", Split(record, ','));
    FirstMatchingToken("RELAYCLIENT", Split(record, ','));
  }

  /** The first token that mentions BLOCK gives '' exactly when it is
      `BLOCK` or `BLOCK=`. */
  lemma BlockTokensAllow(tokens: seq<string>)
    ensures FirstValue("BLOCK", tokens) == Some("") <==>
              exists i :: 0 <= i < |tokens| && (tokens[i] == "BLOCK" || tokens[i] == "BLOCK=") &&
                          forall j :: 0 <= j < i ==> TokenValue("BLOCK", tokens[j]).None?
  {
    FirstMatchingToken("BLOCK", tokens);
    if exists i :: 0 <= i < |tokens| && (tokens[i] == "BLOCK" || tokens[i] == "BLOCK=") &&
                   forall j :: 0 <= j < i ==> TokenValue("BLOCK", tokens[j]).None? {
      var i :| 0 <= i < |tokens| && (tokens[i] == "BLOCK" || tokens[i] == "BLOCK=") &&
               forall j :: 0 <= j < i ==> TokenValue("BLOCK", tokens[j]).None?;
      FirstValueAt("BLOCK", tokens, i);
    }
  }

  /** A matched address is white-listed from blocks exactly when the first
      token that mentions BLOCK is `BLOCK` or `BLOCK=`; a record without BLOCK
      and a non-empty block message both leave it unlisted. */
  lemma WhiteblockDecision(db: Db, ip: string, record: string)
    requires AccessRecord(db, ip) == Some(record)
    ensures var tokens := Split(record, ',');
            IsWhiteblocked(db, ip) <==>
              exists i :: 0 <= i < |tokens| && (tokens[i] == "BLOCK" || tokens[i] == "BLOCK=") &&
                          forall j :: 0 <= j < i ==> TokenValue("BLOCK", tokens[j]).None?
  {
    assert SmtpaccessVal(db, "BLOCK", ip) == FirstValue("BLOCK", Split(record, ','));
    BlockTokensAllow(Split(record, ','));
  }

  /** When token i is the first to mention the key, it gives the value. */
  lemma {:induction false} FirstValueAt(key: string, tokens: seq<string>, i: nat)
    requires i < |tokens| && TokenValue(key, tokens[i]).Some?
    requires forall j :: 0 <= j < i ==> TokenValue(key, tokens[j]).None?
    ensures FirstValue(key, tokens) == TokenValue(key, tokens[i])
  {
    if i > 0 {
      FirstValueAt(key, tokens[1..], i - 1);
    }
  }

  /** An unopenable smtpaccess database denies relaying, white-lists nobody and
      reports no block value, for every address. */
  lemma UnavailableStoreDegrades(ip: string)
    ensures !IsRelayed(None, ip) && !IsWhiteblocked(None, ip) && GetBlockVal(None, ip).None?
  {
  }
}
