/** The filter-side resubmission of a queued message (courier/xfilter.py):
    opening an XFilter with its loop guard, the xtext encoding of DSN
    parameters, reading submit's SMTP-style replies, the sender and recipient
    lines fed to submit, and marking the original recipients complete.

    The submit process is not run: what the filter writes to it is collected
    as a string, and what submit answers is a parameter, the lines its
    standard output would yield, each with its line end. */
module Xfilter {
  import opened Wrappers
  import opened Text
  import opened Config
  import opened Control

  /** XFilterError and its three subclasses; an exception raised by the
      control-file reader passes through unchanged. */
  datatype XFilterError =
    | InitError(reason: string)
    | LoopError(reason: string)
    | SubmitError(reason: string)
    | ControlFailure(error: ControlError)

  // ---------------------------------------------------------------------
  // xtext
  // ---------------------------------------------------------------------

  /** The characters _xtchar escapes: codes outside 33..126 and `+`, `\`, `(`. */
  predicate NeedsEscape(c: char) {
    (c as int) < 33 || (c as int) > 126 || c == '+' || c == '\\' || c == '('
  }

  /** Every character has a code in 33..126. */
  predicate Printable(s: string) {
    forall i :: 0 <= i < |s| ==> 33 <= s[i] as int <= 126
  }

  /** No character of `s` needs escaping. */
  predicate Safe(s: string) {
    forall i :: 0 <= i < |s| ==> !NeedsEscape(s[i])
  }

  /** _xtchar: `'+%X' % ord(c)` for an escaped character, the character itself otherwise. */
  function XChar(c: char): (r: string)
    ensures Printable(r)
    ensures !NeedsEscape(c) ==> r == [c]
    ensures NeedsEscape(c) ==> |r| >= 2 && r[0] == '+'
    ensures NeedsEscape(c) ==> HexDigits(r[1..]) && HexNumber(r[1..]) == c as int
  {
    if NeedsEscape(c) then
      var r := "+" + Hex(c as int);
      assert r[1..] == Hex(c as int);
      HexNumberOfHex(c as int);
      r
    else [c]
  }

  /** _submit_toXtext: every character mapped by _xtchar, joined. */
  function ToXtext(text: string): (r: string)
    ensures |r| >= |text|
  {
    if text == [] then "" else XChar(text[0]) + ToXtext(text[1..])
  }

  /** Every character of an encoding has a code in 33..126. */
  lemma {:induction false} XtextPrintable(s: string)
    ensures Printable(ToXtext(s))
  {
    if s != [] {
      XtextPrintable(s[1..]);
      var a, b := XChar(s[0]), ToXtext(s[1..]);
      assert forall i :: 0 <= i < |a + b| ==> (a + b)[i] == if i < |a| then a[i] else b[i - |a|];
    }
  }

  /** The encoding works character by character, so it distributes over concatenation. */
  lemma {:induction false} XtextAppend(a: string, b: string)
    ensures ToXtext(a + b) == ToXtext(a) + ToXtext(b)
  {
    if a != [] {
      assert (a + b)[1..] == a[1..] + b;
      XtextAppend(a[1..], b);
    } else {
      assert a + b == b;
    }
  }

  /** Text is left alone exactly when it has nothing to escape, which is
      exactly when its encoding is no longer than itself. */
  lemma {:induction false} XtextUnchangedIffSafe(s: string)
    ensures ToXtext(s) == s <==> Safe(s)
    ensures |ToXtext(s)| == |s| <==> Safe(s)
  {
    if s != [] {
      XtextUnchangedIffSafe(s[1..]);
      if Safe(s) {
        assert Safe(s[1..]);
      } else if !NeedsEscape(s[0]) {
        var j :| 0 <= j < |s| && NeedsEscape(s[j]);
        assert s[1..][j - 1] == s[j];
      }
    }
  }

  /** An encoded field never holds a space, a tab or a line end, so it cannot
      break the tab-separated line it is put in. */
  lemma XtextHasNoSeparators(s: string)
    ensures ' ' !in ToXtext(s) && '\t' !in ToXtext(s) && '\n' !in ToXtext(s)
  {
    XtextPrintable(s);
  }

  /** '%X' writes codes below 16 with a single digit, so two different texts
      can share an encoding: a line feed followed by `B`, and the character 0xAB. */
  lemma XtextCollides()
    ensures ToXtext("\nB") == ToXtext([171 as char]) == "+AB"
    ensures "\nB" != [171 as char]
  {
    assert Hex(10) == "A";
    assert Hex(171 / 16) == "A";
    assert Hex(171) == "AB";
    assert ToXtext("B") == "B";
  }

  /** The value of a hexadecimal digit as Hex writes it. */
  function HexValue(c: char): (v: nat)
    requires IsHexDigit(c)
    ensures v < 16
  {
    if c <= '9' then c as int - 48 else c as int - 55
  }

  predicate HexDigits(s: string) {
    forall i :: 0 <= i < |s| ==> IsHexDigit(s[i])
  }

  /** The number a string of hexadecimal digits denotes. */
  function HexNumber(s: string): nat
    requires HexDigits(s)
  {
    if s == [] then 0 else HexNumber(s[..|s| - 1]) * 16 + HexValue(s[|s| - 1])
  }

  /** '%X' writes a number's hexadecimal digits: reading them back gives the number. */
  lemma {:induction false} HexNumberOfHex(n: nat)
    ensures HexNumber(Hex(n)) == n
  {
    var s := Hex(n);
    if n < 16 {
      assert s[..0] == [];
    } else {
      assert s[..|s| - 1] == Hex(n / 16);
      HexNumberOfHex(n / 16);
    }
  }

  /** Decoding of xtext as section 4 of RFC 3461 defines it: `+` and two hex digits
      stand for one character. None for text that is not xtext. */
  function FromXtext(x: string): Option<string>
    decreases |x|
  {
    if x == [] then Some("")
    else if x[0] == '+' then
      if |x| >= 3 && IsHexDigit(x[1]) && IsHexDigit(x[2]) then
        match FromXtext(x[3..])
        case None => None
        case Some(rest) => Some([(16 * HexValue(x[1]) + HexValue(x[2])) as char] + rest)
      else None
    else
      match FromXtext(x[1..])
      case None => None
      case Some(rest) => Some([x[0]] + rest)
  }

  /** Every escaped character has a code that '%X' writes with two digits. */
  predicate TwoDigitEscapes(s: string) {
    forall i :: 0 <= i < |s| && NeedsEscape(s[i]) ==> 16 <= s[i] as int < 256
  }

  lemma TwoDigitHex(n: nat)
    requires 16 <= n < 256
    ensures |Hex(n)| == 2 && HexValue(Hex(n)[0]) == n / 16 && HexValue(Hex(n)[1]) == n % 16
  {
    assert Hex(n / 16) == [HexDigit(n / 16)];
  }

  /** Whenever every escape has two digits, the encoding is undone by RFC 3461 decoding. */
  lemma {:induction false} XtextRoundTrip(s: string)
    requires TwoDigitEscapes(s)
    ensures FromXtext(ToXtext(s)) == Some(s)
  {
    if s != [] {
      var c, t := s[0], ToXtext(s[1..]);
      assert TwoDigitEscapes(s[1..]) by {
        forall i | 0 <= i < |s[1..]| && NeedsEscape(s[1..][i])
          ensures 16 <= s[1..][i] as int < 256
        {
          assert s[1..][i] == s[i + 1];
        }
      }
      XtextRoundTrip(s[1..]);
      CharRoundTrip(c, t);
      assert [c] + s[1..] == s;
    }
  }

  /** Decoding the encoding of one character followed by xtext t decodes t after it. */
  lemma CharRoundTrip(c: char, t: string)
    requires NeedsEscape(c) ==> 16 <= c as int < 256
    ensures FromXtext(XChar(c) + t) == match FromXtext(t)
      case None => None
      case Some(rest) => Some([c] + rest)
  {
    var x := XChar(c) + t;
    if NeedsEscape(c) {
      var n := c as int;
      TwoDigitHex(n);
      assert x[3..] == t;
      assert 16 * HexValue(x[1]) + HexValue(x[2]) == n;
    } else {
      assert x[1..] == t;
    }
  }

  // ---------------------------------------------------------------------
  // Replies from submit
  // ---------------------------------------------------------------------

  /** _submit_read_response from line `i` of submit's output with `acc`
      read so far: lines longer than four characters are gathered until one
      has a space after its three-digit code (section 4.2.1 of RFC 5321).
      Gives the reply and the next line, or the text gathered before an
      end of file or a short line. */
  function ResponseFrom(out: seq<string>, i: nat, acc: string): (r: Result<(string, nat), string>)
    ensures r.Success? ==> |r.value.0| > |acc| + 4 && i < r.value.1 <= |out|
    decreases |out| - i
  {
    var line := ReadLine(out, i);
    if |line| <= 4 then Failure(acc)
    else if line[3] == ' ' then Success((acc + line, i + 1))
    else ResponseFrom(out, i + 1, acc + line)
  }

  /** Line `k` is the last line of the reply that starts at line `i`. */
  predicate FinalAt(out: seq<string>, i: nat, k: nat) {
    && i <= k < |out|
    && |out[k]| > 4 && out[k][3] == ' '
    && forall j :: i <= j < k ==> |out[j]| > 4 && out[j][3] != ' '
  }

  /** A reply is exactly its lines up to and including the first final line. */
  lemma {:induction false} ResponseUpToFinal(out: seq<string>, i: nat, k: nat, acc: string)
    requires FinalAt(out, i, k)
    ensures ResponseFrom(out, i, acc) == Success((acc + Concat(out[i..k + 1]), k + 1))
    decreases k - i
  {
    var ss := out[i..k + 1];
    assert ss[0] == out[i] && ss[1..] == out[i + 1..k + 1];
    assert Concat(ss) == out[i] + Concat(out[i + 1..k + 1]);
    assert ReadLine(out, i) == out[i];
    if i < k {
      ResponseUpToFinal(out, i + 1, k, acc + out[i]);
      assert (acc + out[i]) + Concat(out[i + 1..k + 1]) == acc + (out[i] + Concat(out[i + 1..k + 1]));
    } else {
      assert out[i + 1..k + 1] == [];
      assert acc + (out[i] + "") == acc + out[i];
    }
  }

  /** A reply that is read completely ends at a final line. */
  lemma {:induction false} ResponseHasFinal(out: seq<string>, i: nat, acc: string) returns (k: nat)
    requires ResponseFrom(out, i, acc).Success?
    ensures FinalAt(out, i, k) && ResponseFrom(out, i, acc).value.1 == k + 1
    decreases |out| - i
  {
    if out[i][3] == ' ' {
      k := i;
    } else {
      k := ResponseHasFinal(out, i + 1, acc + out[i]);
    }
  }

  /** _submit_read_response, reading line by line. */
  method ReadResponse(out: seq<string>, start: nat) returns (r: Result<(string, nat), string>)
    ensures r == ResponseFrom(out, start, "")
  {
    var response := "";
    var pos := start;
    var line := ReadLine(out, pos);
    while line != "" && |line| > 4
      invariant line == ReadLine(out, pos)
      invariant ResponseFrom(out, pos, response) == ResponseFrom(out, start, "")
      decreases |out| - pos
    {
      response := response + line;
      if line[3] == ' ' {
        return Success((response, pos + 1));
      }
      pos := pos + 1;
      line := ReadLine(out, pos);
    }
    return Failure(response);
  }

  /** _submit_recv: a reply that cannot be read, or that starts with 4 or 5,
      is a SubmitError; otherwise the line after the reply. */
  function Recv(out: seq<string>, i: nat): Result<nat, XFilterError>
  {
    match ResponseFrom(out, i, "")
    case Failure(got) => Failure(SubmitError("Error reading response, got \"" + got + "\""))
    case Success((reply, next)) =>
      if reply[0] == '4' || reply[0] == '5' then Failure(SubmitError(reply)) else Success(next)
  }

  /** Only the reply code's first digit on the first line decides acceptance. */
  lemma RecvDecidedByFirstDigit(out: seq<string>, i: nat, k: nat)
    requires FinalAt(out, i, k)
    ensures Recv(out, i).Success? <==> out[i][0] != '4' && out[i][0] != '5'
    ensures Recv(out, i).Success? ==> Recv(out, i).value == k + 1
    ensures Recv(out, i).Failure? ==> Recv(out, i).error == SubmitError(Concat(out[i..k + 1]))
  {
    ResponseUpToFinal(out, i, k, "");
    assert out[i..k + 1] == [out[i]] + out[i + 1..k + 1];
    assert "" + Concat(out[i..k + 1]) == out[i] + Concat(out[i + 1..k + 1]);
  }

  method Receive(out: seq<string>, pos: nat) returns (r: Result<nat, XFilterError>)
    ensures r == Recv(out, pos)
  {
    var resp := ReadResponse(out, pos);
    if resp.Failure? {
      return Failure(SubmitError("Error reading response, got \"" + resp.error + "\""));
    }
    var reply := resp.value.0;
    if reply[0] == '4' || reply[0] == '5' {
      return Failure(SubmitError(reply));
    }
    return Success(resp.value.1);
  }

  /** `n` replies in a row from line `i`: the line after the last, or the first failure. */
  function Replies(n: nat, out: seq<string>, i: nat): Result<nat, XFilterError>
  {
    if n == 0 then Success(i)
    else match Replies(n - 1, out, i)
      case Failure(e) => Failure(e)
      case Success(j) => Recv(out, j)
  }

  lemma ReplyStep(n: nat, out: seq<string>, i: nat)
    requires Replies(n, out, i).Success?
    ensures Replies(n + 1, out, i) == Recv(out, Replies(n, out, i).value)
  {
  }

  lemma {:induction false} RepliesFailureSticks(n: nat, m: nat, out: seq<string>, i: nat)
    requires n <= m && Replies(n, out, i).Failure?
    ensures Replies(m, out, i) == Replies(n, out, i)
    decreases m
  {
    if n < m {
      RepliesFailureSticks(n, m - 1, out, i);
    }
  }

  /** Each accepted reply takes at least one line of submit's output. */
  lemma {:induction false} RepliesAdvance(n: nat, out: seq<string>, i: nat)
    requires Replies(n, out, i).Success?
    ensures i + n <= Replies(n, out, i).value
  {
    if n > 0 {
      RepliesAdvance(n - 1, out, i);
    }
  }

  // ---------------------------------------------------------------------
  // What is fed to submit
  // ---------------------------------------------------------------------

  /** submit's command line: the program, `-src=` with the message source when
      there is one, `esmtp` and the Received-From-MTA record. */
  function SubmitArgs(d: ControlData): (args: seq<string>)
    ensures |args| == if Given(d.source) then 4 else 3
    ensures args[0] == Prefix + "/libexec/courier/submit"
    ensures args[|args| - 2..] == ["esmtp", d.receivedFrom]
  {
    [Prefix + "/libexec/courier/submit"]
      + (if Given(d.source) then ["-src=" + d.source.value] else [])
      + ["esmtp", d.receivedFrom]
  }

  /** What follows the sender's tab: the RET value, `V` when VERPed, the security level. */
  function Flags(d: ControlData): string {
    (if Given(d.ret) then d.ret.value else "") + (if Given(d.verp) then "V" else "") + d.security
  }

  /** The tab-separated fields of the sender line. */
  function SenderFields(d: ControlData): seq<string> {
    [d.sender, Flags(d)] + (if Given(d.envid) then [ToXtext(d.envid.value)] else [])
  }

  /** The encoded envid after a tab, when there is an envid. */
  function EnvidField(d: ControlData): string {
    if Given(d.envid) then "\t" + ToXtext(d.envid.value) else ""
  }

  /** A line end closes the text. */
  predicate EndsLine(l: string) {
    l != [] && l[|l| - 1] == '\n'
  }

  /** One line: a line end closes the text and there is no other. */
  predicate OneLineEnded(l: string) {
    EndsLine(l) && '\n' !in l[..|l| - 1]
  }

  lemma EnvidFieldOneLine(d: ControlData)
    ensures '\n' !in EnvidField(d)
  {
    if Given(d.envid) {
      XtextHasNoSeparators(d.envid.value);
    }
  }

  /** The sender line: the sender, a tab, the flags, the envid field, a line end. */
  function SenderLine(d: ControlData): (l: string)
    ensures d.sender <= l && EndsLine(l)
    ensures '\n' !in d.sender && '\n' !in Flags(d) ==> OneLineEnded(l)
  {
    var body := d.sender + "\t" + Flags(d) + EnvidField(d);
    LineEnd(body);
    EnvidFieldOneLine(d);
    assert body[..|d.sender|] == d.sender;
    body + "\n"
  }

  /** Submit reads the sender line back as its fields: the sender, the flags and
      the encoded envid when there is one. */
  lemma SenderLineFields(d: ControlData)
    requires '\t' !in d.sender && '\t' !in Flags(d)
    ensures var l := SenderLine(d);
      l[|l| - 1] == '\n' && Split(l[..|l| - 1], '\t') == SenderFields(d)
  {
    LineEnd(d.sender + "\t" + Flags(d) + EnvidField(d));
    if Given(d.envid) {
      XtextHasNoSeparators(d.envid.value);
      SplitTabbed3(d.sender, Flags(d), ToXtext(d.envid.value));
    } else {
      SplitTabbed2(d.sender, Flags(d));
    }
  }

  lemma LineEnd(body: string)
    ensures var l := body + "\n"; l[|l| - 1] == '\n' && l[..|l| - 1] == body
  {
    var l := body + "\n";
    assert l[..|l| - 1] == body;
  }

  lemma SplitTabbed2(a: string, b: string)
    requires '\t' !in a && '\t' !in b
    ensures Split(a + "\t" + b + "", '\t') == [a, b]
  {
    assert a + "\t" + b + "" == a + ['\t'] + b;
    SplitAtFirst(a, b, '\t');
    assert Split(b, '\t') == [b];
  }

  lemma SplitTabbed3(a: string, b: string, c: string)
    requires '\t' !in a && '\t' !in b && '\t' !in c
    ensures Split(a + "\t" + b + ("\t" + c), '\t') == [a, b, c]
  {
    var bc := b + ['\t'] + c;
    assert a + "\t" + b + ("\t" + c) == a + ['\t'] + bc by {
      ConcatAssoc(a + "\t", b, "\t" + c);
      ConcatAssoc(a, "\t", bc);
    }
    assert Split(bc, '\t') == [b, c] by {
      SplitAtFirst(b, c, '\t');
      assert Split(c, '\t') == [c];
    }
    SplitAtFirst(a, bc, '\t');
  }

  /** One recipient line: address, encoded DSN flags, original recipient. */
  function RecipientLine(r: Rcpt): (l: string)
    ensures r.address <= l && EndsLine(l)
    ensures '\n' !in r.address && '\n' !in r.orig ==> OneLineEnded(l)
  {
    var body := r.address + "\t" + ToXtext(r.dsn) + "\t" + r.orig;
    LineEnd(body);
    XtextHasNoSeparators(r.dsn);
    assert body[..|r.address|] == r.address;
    body + "\n"
  }

  /** Submit reads a recipient line back as the address, the encoded DSN flags
      and the original recipient, and the DSN flags decode to their value. */
  lemma RecipientLineFields(r: Rcpt)
    requires '\t' !in r.address && '\t' !in r.orig
    ensures var l := RecipientLine(r);
      l[|l| - 1] == '\n' && Split(l[..|l| - 1], '\t') == [r.address, ToXtext(r.dsn), r.orig]
    ensures TwoDigitEscapes(r.dsn) ==> FromXtext(Split(RecipientLine(r)[..|RecipientLine(r)| - 1], '\t')[1]) == Some(r.dsn)
  {
    var body := r.address + "\t" + ToXtext(r.dsn) + "\t" + r.orig;
    LineEnd(body);
    XtextHasNoSeparators(r.dsn);
    assert body == r.address + "\t" + ToXtext(r.dsn) + ("\t" + r.orig);
    SplitTabbed3(r.address, ToXtext(r.dsn), r.orig);
    if TwoDigitEscapes(r.dsn) {
      XtextRoundTrip(r.dsn);
    }
  }

  /** The recipient lines, one per recipient in order. */
  function RecipientSection(rs: seq<Rcpt>): string {
    if rs == [] then "" else RecipientSection(rs[..|rs| - 1]) + RecipientLine(rs[|rs| - 1])
  }

  lemma {:induction false} RecipientSectionPrefix(rs: seq<Rcpt>, k: nat)
    requires k <= |rs|
    ensures RecipientSection(rs[..k]) <= RecipientSection(rs)
    decreases |rs|
  {
    if k < |rs| {
      var init := rs[..|rs| - 1];
      assert rs[..k] == init[..k];
      RecipientSectionPrefix(init, k);
    } else {
      assert rs[..k] == rs;
    }
  }

  /** Everything written to submit when every reply accepts: the sender line,
      the recipient lines, a blank line and the message. */
  function SentText(d: ControlData, text: string): string {
    SenderLine(d) + RecipientSection(d.recipients) + "\n" + text
  }

  /** The replies of a whole submission: one for the sender, one per recipient, one for the message. */
  function Session(d: ControlData, out: seq<string>): Result<nat, XFilterError> {
    Replies(|d.recipients| + 2, out, 0)
  }

  /** The files after del_recipient_data for each recipient in turn, with the
      exception that stopped the loop, if any. */
  function CloseAll(files: seq<File>, rs: seq<Rcpt>, now: int): (seq<File>, Option<ControlError>)
    decreases |rs|
  {
    if rs == [] then (files, None)
    else match Deleted(files, Data(rs[0].AsList()), now)
      case Failure(e) => (files, Some(e))
      case Success(f) => CloseAll(f, rs[1..], now)
  }

  lemma MatchesOwnData(r: Rcpt)
    ensures Matches(Data(r.AsList()), r)
  {
  }

  /** Closing the recipients get_recipients_data lists, first to last, marks
      each complete in turn: none is left pending afterwards, and any others
      after them stay pending. */
  lemma {:induction false} CloseAllEmpties(files: seq<File>, rs: seq<Rcpt>, rest: seq<Rcpt>, now: int)
    requires RecipientsData(files) == Success(rs + rest)
    ensures CloseAll(files, rs, now).1 == None
    ensures RecipientsData(CloseAll(files, rs, now).0) == Success(rest)
    decreases |rs|
  {
    if rs == [] {
      assert rs + rest == rest;
    } else {
      var t := Data(rs[0].AsList());
      DeleteRemovesFirstMatch(files, t, now);
      MatchesOwnData(rs[0]);
      assert (rs + rest)[1..] == rs[1..] + rest;
      var f := Deleted(files, t, now).value;
      CloseAllEmpties(f, rs[1..], rest, now);
    }
  }

  // ---------------------------------------------------------------------
  // The filter object
  // ---------------------------------------------------------------------

  datatype Header = Header(name: string, value: string)

  /** A parsed message: its headers in order and the rest. */
  datatype Message = Message(headers: seq<Header>, body: string)

  /** The body file handed to the filter: unreadable, not parseable as a message, or parsed. */
  datatype BodyFile = Unreadable | Unparsable(reason: string) | Parsed(message: Message)

  function LowerChar(c: char): char {
    if 'A' <= c <= 'Z' then (c as int + 32) as char else c
  }

  /** ASCII lower case, as header names are compared. */
  function Lower(s: string): (r: string)
    ensures |r| == |s|
  {
    seq(|s|, i requires 0 <= i < |s| => LowerChar(s[i]))
  }

  const Marker := "X-Filtered-By"

  /** Message.get_all(name): the values of the headers whose name matches, case ignored. */
  function GetAll(headers: seq<Header>, name: string): seq<string>
  {
    if headers == [] then []
    else
      var h := headers[|headers| - 1];
      GetAll(headers[..|headers| - 1], name) + (if Lower(h.name) == Lower(name) then [h.value] else [])
  }

  /** The message with the filter's marker header added at the end. */
  function Marked(m: Message, filterName: string): Message {
    m.(headers := m.headers + [Header(Marker, filterName)])
  }

  /** XFilter.__init__: the marked message and the control data, or the
      exception it raises. */
  function Prepared(filterName: string, body: BodyFile, files: seq<File>): (r: Result<(Message, ControlData), XFilterError>)
    ensures !body.Parsed? ==> r.Failure? && r.error.InitError?
    ensures r.Failure? && r.error.LoopError? <==> body.Parsed? && filterName in GetAll(body.message.headers, Marker)
    ensures r.Success? ==>
      && body.Parsed? && ControlDataOf(files) == Success(r.value.1)
      && |r.value.0.headers| == |body.message.headers| + 1
      && r.value.0.headers[..|body.message.headers|] == body.message.headers
      && r.value.0.body == body.message.body
      && filterName in GetAll(r.value.0.headers, Marker)
  {
    match body
    case Unreadable => Failure(InitError("Internal failure opening message data file"))
    case Unparsable(e) => Failure(InitError("Internal failure parsing message data file: " + e))
    case Parsed(m) =>
      if filterName in GetAll(m.headers, Marker) then
        Failure(LoopError("Message has already been filtered by " + filterName))
      else match ControlDataOf(files)
        case Failure(e) => Failure(ControlFailure(e))
        case Success(d) =>
          var hs := Marked(m, filterName).headers;
          assert hs[..|hs| - 1] == m.headers;
          Success((Marked(m, filterName), d))
  }

  /** The loop guard: a parsed message is refused with LoopError exactly when
      one of its marker headers already names the filter. */
  lemma LoopGuard(filterName: string, m: Message, files: seq<File>)
    ensures Prepared(filterName, Parsed(m), files).Failure?
            && Prepared(filterName, Parsed(m), files).error.LoopError?
        <==> filterName in GetAll(m.headers, Marker)
  {
  }

  /** Opening the filter adds exactly one marker naming it, after the existing
      headers, which stay as they were. */
  lemma MarkAddsOne(filterName: string, m: Message)
    requires filterName !in GetAll(m.headers, Marker)
    ensures Marked(m, filterName).headers[..|m.headers|] == m.headers
    ensures GetAll(Marked(m, filterName).headers, Marker) == GetAll(m.headers, Marker) + [filterName]
    ensures multiset(GetAll(Marked(m, filterName).headers, Marker))[filterName] == 1
  {
    var hs := Marked(m, filterName).headers;
    assert hs[..|hs| - 1] == m.headers;
    assert multiset(GetAll(m.headers, Marker))[filterName] == 0;
  }

  /** A message the filter has marked is refused by the same filter: the guard
      stops a filter from resubmitting its own output forever. */
  lemma RefilterLoops(filterName: string, m: Message, files: seq<File>)
    requires Prepared(filterName, Parsed(m), files).Success?
    ensures var m' := Prepared(filterName, Parsed(m), files).value.0;
      Prepared(filterName, Parsed(m'), files) == Failure(LoopError("Message has already been filtered by " + filterName))
  {
    MarkAddsOne(filterName, m);
    var m' := Marked(m, filterName);
    assert GetAll(m'.headers, Marker)[|GetAll(m.headers, Marker)|] == filterName;
  }

  /** Header names are compared without regard to case. */
  lemma GuardIgnoresCase(filterName: string, name: string, body: string, files: seq<File>)
    requires Lower(name) == Lower(Marker)
    ensures Prepared(filterName, Parsed(Message([Header(name, filterName)], body)), files)
         == Failure(LoopError("Message has already been filtered by " + filterName))
  {
    var hs := [Header(name, filterName)];
    assert hs[..0] == [];
    assert GetAll(hs, Marker) == [filterName];
  }

  /** For instance, an all-lower-case marker is recognised. */
  lemma LowerCaseMarker(filterName: string, body: string, files: seq<File>)
    ensures Prepared(filterName, Parsed(Message([Header("x-filtered-by", filterName)], body)), files).Failure?
  {
    assert Lower("x-filtered-by") == Lower(Marker);
    GuardIgnoresCase(filterName, "x-filtered-by", body, files);
  }

  /** One XFilter: the marked message, the filter's name, the control data
      read when it was opened and the control-file set it will update. */
  class XFilter {
    var message: Message
    var filterName: string
    var controlData: ControlData
    const control: ControlFiles

    constructor (message: Message, filterName: string, controlData: ControlData, control: ControlFiles)
      ensures this.message == message && this.filterName == filterName
      ensures this.controlData == controlData && this.control == control
    {
      this.message := message;
      this.filterName := filterName;
      this.controlData := controlData;
      this.control := control;
    }

    /** submit(): feed the sender, each recipient and the message to submit,
        checking each reply, then mark every recipient of the control data
        complete in the original control files. `out` is what submit answers,
        `text` the message as as_string() writes it, `now` the clock. */
    method Submit(out: seq<string>, text: string, now: int)
      returns (args: seq<string>, sent: string, err: Option<XFilterError>)
      modifies control
      ensures args == SubmitArgs(controlData)
      ensures sent <= SentText(controlData, text)
      ensures Session(controlData, out).Failure? ==>
        err == Some(Session(controlData, out).error) && control.files == old(control.files)
      ensures Session(controlData, out).Success? ==>
        && sent == SentText(controlData, text)
        && var (files, e) := CloseAll(old(control.files), controlData.recipients, now);
          control.files == files && err == (if e.Some? then Some(ControlFailure(e.value)) else None)
    {
      args := BuildArgs(controlData);
      var r;
      sent, r := Converse(controlData, out, text);
      if r.Failure? {
        return args, sent, Some(r.error);
      }
      var e := MarkAllComplete(control, controlData.recipients, now);
      err := if e.Some? then Some(ControlFailure(e.value)) else None;
    }
  }

  /** submit's argument list, built as submit() builds it. */
  method BuildArgs(d: ControlData) returns (args: seq<string>)
    ensures args == SubmitArgs(d)
  {
    args := [Prefix + "/libexec/courier/submit"];
    if Given(d.source) {
      args := args + ["-src=" + d.source.value];
    }
    args := args + ["esmtp"];
    args := args + [d.receivedFrom];
  }

  /** The sender line, built field by field. */
  method BuildSenderLine(d: ControlData) returns (sbuf: string)
    ensures sbuf == SenderLine(d)
  {
    var flags := BuildFlags(d);
    sbuf := d.sender + "\t" + flags;
    if Given(d.envid) {
      sbuf := sbuf + "\t" + ToXtext(d.envid.value);
    }
    assert sbuf == d.sender + "\t" + Flags(d) + EnvidField(d);
    sbuf := sbuf + "\n";
  }

  /** The flags of the sender line, appended one by one. */
  method BuildFlags(d: ControlData) returns (flags: string)
    ensures flags == Flags(d)
  {
    ghost var a := if Given(d.ret) then d.ret.value else "";
    ghost var b := if Given(d.verp) then "V" else "";
    flags := "";
    if Given(d.ret) {
      flags := flags + d.ret.value;
    }
    assert flags == a;
    if Given(d.verp) {
      flags := flags + "V";
    }
    assert flags == a + b;
    if d.security != "" {
      flags := flags + d.security;
    }
  }

  /** The exchange with submit: the sender line, then each recipient line,
      then a blank line and the message, each followed by a reply that must
      accept. Gives what was written and the outcome of the replies. */
  method Converse(d: ControlData, out: seq<string>, text: string)
    returns (sent: string, r: Result<nat, XFilterError>)
    ensures r == Session(d, out)
    ensures sent <= SentText(d, text)
    ensures r.Success? ==> sent == SentText(d, text)
  {
    var head := BuildSenderLine(d);
    r := ReceiveNext(out, 0, Success(0));
    if r.Failure? {
      FirstRefused(d, text, out);
      return head, r;
    }
    var n;
    sent, r, n := SendRecipients(head, d.recipients, out, r);
    if r.Failure? {
      assert r == Session(d, out);
      SentPrefix(d, text, n);
      return;
    }
    assert d.recipients[..n] == d.recipients;
    sent, r := SendMessage(d, text, out, sent, r);
  }

  /** A refused sender line ends the session: what was written is the
      sender line alone, and the session's outcome is that refusal. */
  lemma FirstRefused(d: ControlData, text: string, out: seq<string>)
    requires Replies(1, out, 0).Failure?
    ensures SenderLine(d) <= SentText(d, text)
    ensures Session(d, out) == Replies(1, out, 0)
  {
    SentPrefix(d, text, 0);
    assert d.recipients[..0] == [];
    RepliesFailureSticks(1, |d.recipients| + 2, out, 0);
  }

  /** The last step of the exchange: the blank line and the message, then
      the final reply. */
  method SendMessage(d: ControlData, text: string, out: seq<string>, prev: string, accepted: Result<nat, XFilterError>)
    returns (sent: string, r: Result<nat, XFilterError>)
    requires prev == SenderLine(d) + RecipientSection(d.recipients)
    requires accepted.Success? && accepted == Replies(|d.recipients| + 1, out, 0)
    ensures sent == SentText(d, text) && r == Session(d, out)
  {
    WholeText(d, text, prev);
    sent := prev + "\n" + text;
    r := ReceiveNext(out, |d.recipients| + 1, accepted);
  }

  /** Once every recipient line is written, the blank line and the message
      complete what submit is sent. */
  lemma WholeText(d: ControlData, text: string, sent: string)
    requires sent == SenderLine(d) + RecipientSection(d.recipients)
    ensures sent + "\n" + text == SentText(d, text)
  {
  }

  /** The recipient loop of submit(): each line written, then its reply read.
      Gives what was written, the outcome of the last reply and how many
      recipient lines were written. */
  method SendRecipients(head: string, rs: seq<Rcpt>, out: seq<string>, start: Result<nat, XFilterError>)
    returns (sent: string, r: Result<nat, XFilterError>, n: nat)
    requires start.Success? && Replies(1, out, 0) == start
    ensures n <= |rs| && sent == head + RecipientSection(rs[..n])
    ensures r.Failure? ==> r == Replies(|rs| + 2, out, 0)
    ensures r.Failure? ==> 1 <= n && Replies(n, out, 0).Success? && Replies(n + 1, out, 0) == r
    ensures r.Success? ==> n == |rs| && r == Replies(|rs| + 1, out, 0)
  {
    sent, r, n := head, start, 0;
    while n < |rs|
      invariant 0 <= n <= |rs|
      invariant sent == head + RecipientSection(rs[..n])
      invariant r.Success? && Replies(1 + n, out, 0) == r
    {
      SentNext(head, rs, n, sent);
      sent := sent + RecipientLine(rs[n]);
      r := ReceiveNext(out, 1 + n, r);
      if r.Failure? {
        RefusedAt(n + 1, |rs|, out);
        return sent, r, n + 1;
      }
      n := n + 1;
    }
  }

  /** _submit_recv after k accepted replies: reply k + 1 of the exchange. */
  method ReceiveNext(out: seq<string>, k: nat, prev: Result<nat, XFilterError>) returns (r: Result<nat, XFilterError>)
    requires prev.Success? && Replies(k, out, 0) == prev
    ensures r == Replies(k + 1, out, 0)
  {
    ReplyStep(k, out, 0);
    r := Receive(out, prev.value);
  }

  /** A refusal of reply k + 1, after k accepted ones, is the outcome of
      every longer exchange. */
  lemma RefusedAt(k: nat, m: nat, out: seq<string>)
    requires 1 <= k <= m && Replies(k, out, 0).Success? && Replies(k + 1, out, 0).Failure?
    ensures Replies(m + 2, out, 0) == Replies(k + 1, out, 0)
  {
    RepliesFailureSticks(k + 1, m + 2, out, 0);
  }

  /** Writing recipient line n extends what was written by that line. */
  lemma SentNext(head: string, rs: seq<Rcpt>, n: nat, sent: string)
    requires n < |rs| && sent == head + RecipientSection(rs[..n])
    ensures sent + RecipientLine(rs[n]) == head + RecipientSection(rs[..n + 1])
  {
    RecipientSectionNext(rs, n);
    ConcatAssoc(head, RecipientSection(rs[..n]), RecipientLine(rs[n]));
  }

  lemma RecipientSectionNext(rs: seq<Rcpt>, i: nat)
    requires i < |rs|
    ensures RecipientSection(rs[..i + 1]) == RecipientSection(rs[..i]) + RecipientLine(rs[i])
  {
    assert rs[..i + 1][..i] == rs[..i];
  }

  /** What has been written after `i` recipient lines starts what a full submission writes. */
  lemma SentPrefix(d: ControlData, text: string, i: nat)
    requires i <= |d.recipients|
    ensures SenderLine(d) + RecipientSection(d.recipients[..i]) <= SentText(d, text)
  {
    RecipientSectionPrefix(d.recipients, i);
    PrefixConcat(SenderLine(d), RecipientSection(d.recipients[..i]), RecipientSection(d.recipients), "\n", text);
  }

  lemma ConcatAssoc(a: string, b: string, c: string)
    ensures (a + b) + c == a + (b + c)
  {
  }

  lemma PrefixConcat(head: string, p: string, q: string, mid: string, tail: string)
    requires p <= q
    ensures head + p <= head + q + mid + tail
  {
    assert q == p + q[|p|..];
    assert head + q + mid + tail == (head + p) + (q[|p|..] + mid + tail);
  }

  /** The final loop of submit(): del_recipient_data for each recipient in
      turn; an exception stops the loop and leaves earlier marks in place. */
  method MarkAllComplete(control: ControlFiles, rs: seq<Rcpt>, now: int) returns (err: Option<ControlError>)
    modifies control
    ensures (control.files, err) == CloseAll(old(control.files), rs, now)
  {
    var k := 0;
    while k < |rs|
      invariant 0 <= k <= |rs|
      invariant CloseAll(control.files, rs[k..], now) == CloseAll(old(control.files), rs, now)
    {
      err := control.DelRecipientData(rs[k].AsList(), now);
      assert rs[k..][1..] == rs[k + 1..];
      if err.Some? {
        return;
      }
      k := k + 1;
    }
    return None;
  }

  /** XFilter(filterName, bodyFile, controlFileList): the opened filter, or
      the exception __init__ raises. */
  method Open(filterName: string, body: BodyFile, control: ControlFiles) returns (r: Result<XFilter, XFilterError>)
    ensures Prepared(filterName, body, control.files).Failure? ==>
      r == Failure(Prepared(filterName, body, control.files).error)
    ensures Prepared(filterName, body, control.files).Success? ==>
      && r.Success? && fresh(r.value)
      && r.value.message == Prepared(filterName, body, control.files).value.0
      && r.value.controlData == Prepared(filterName, body, control.files).value.1
      && r.value.filterName == filterName && r.value.control == control
  {
    if body.Unreadable? {
      return Failure(InitError("Internal failure opening message data file"));
    }
    if body.Unparsable? {
      return Failure(InitError("Internal failure parsing message data file: " + body.reason));
    }
    var m := body.message;
    if filterName in GetAll(m.headers, Marker) {
      return Failure(LoopError("Message has already been filtered by " + filterName));
    }
    m := Marked(m, filterName);
    var d := GetControlData(control.files);
    if d.Failure? {
      return Failure(ControlFailure(d.error));
    }
    var x := new XFilter(m, filterName, d.value, control);
    return Success(x);
  }

  /** A filter opened on a control-file set and submitted while the set is
      unchanged leaves no recipient of the original message pending. */
  lemma SubmitClosesOriginal(files: seq<File>, filterName: string, m: Message, now: int)
    requires Prepared(filterName, Parsed(m), files).Success?
    ensures var d := Prepared(filterName, Parsed(m), files).value.1;
      CloseAll(files, d.recipients, now).1 == None
      && RecipientsData(CloseAll(files, d.recipients, now).0) == Success([])
  {
    var d := Prepared(filterName, Parsed(m), files).value.1;
    assert d.recipients + [] == d.recipients;
    CloseAllEmpties(files, d.recipients, [], now);
  }
}
