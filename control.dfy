/** Courier's queue control files, as courier/control.py reads and appends to
    them. A control file is the sequence of its lines without their line
    ends; a message's control-file set is a sequence of such files. A line's
    first character is its record type, and a blank line has type '\n'. */
module Control {
  import opened Wrappers
  import opened Text

  type File = seq<string>

  /** The exceptions control.py lets escape from malformed files or arguments. */
  datatype ControlError = ValueError | IndexError

  /** `ctl_line[0]`: the record type of a line. */
  function Kind(line: string): char {
    if line == "" then '\n' else line[0]
  }

  /** `ctl_line[1:].strip()`: the value a record carries. */
  function Rest(line: string): string {
    if line == "" then "" else Strip(line[1..])
  }

  lemma RestOfRecord(c: char, v: string)
    ensures Kind([c] + v) == c && Rest([c] + v) == Strip(v)
  {
    assert ([c] + v)[1..] == v;
  }

  // ---------------------------------------------------------------------
  // get_lines and the single-record queries
  // ---------------------------------------------------------------------

  /** The values of the `key` records of one file, in line order. */
  function FileValues(lines: File, key: char): seq<string>
  {
    if lines == [] then []
    else
      var last := lines[|lines| - 1];
      FileValues(lines[..|lines| - 1], key) + (if Kind(last) == key then [Rest(last)] else [])
  }

  /** The values of the `key` records of a control-file set, file after file. */
  function Values(files: seq<File>, key: char): seq<string>
  {
    if files == [] then []
    else Values(files[..|files| - 1], key) + FileValues(files[|files| - 1], key)
  }

  /** At most `maxLines` of `vs` when `maxLines` is positive, all of them otherwise. */
  function Capped(vs: seq<string>, maxLines: int): (r: seq<string>)
    ensures r <= vs
    ensures maxLines > 0 ==> |r| <= maxLines
    ensures maxLines <= 0 || |vs| <= maxLines ==> r == vs
  {
    if maxLines > 0 && |vs| > maxLines then vs[..maxLines] else vs
  }

  lemma {:induction false} FileValuesPrefix(lines: File, key: char, j: nat)
    requires j <= |lines|
    ensures FileValues(lines[..j], key) <= FileValues(lines, key)
    decreases |lines|
  {
    if j < |lines| {
      var init := lines[..|lines| - 1];
      assert lines[..j] == init[..j];
      FileValuesPrefix(init, key, j);
    } else {
      assert lines[..j] == lines;
    }
  }

  lemma {:induction false} ValuesPrefix(files: seq<File>, key: char, j: nat)
    requires j <= |files|
    ensures Values(files[..j], key) <= Values(files, key)
    decreases |files|
  {
    if j < |files| {
      var init := files[..|files| - 1];
      assert files[..j] == init[..j];
      ValuesPrefix(init, key, j);
    } else {
      assert files[..j] == files;
    }
  }

  /** Values collected up to line `i` of file `k` that reach the cap are the capped values. */
  lemma FullStops(files: seq<File>, key: char, k: nat, i: nat, lines: seq<string>, maxLines: int)
    requires k < |files| && i <= |files[k]|
    requires lines == Values(files[..k], key) + FileValues(files[k][..i], key)
    requires maxLines > 0 && |lines| == maxLines
    ensures lines == Capped(Values(files, key), maxLines)
  {
    FileValuesPrefix(files[k], key, i);
    assert files[..k + 1][..k] == files[..k];
    ValuesPrefix(files, key, k + 1);
    assert lines <= Values(files[..k + 1], key);
  }

  /** get_lines: the values of the `key` records of every file in order,
      stopping once `maxLines` of them are collected when it is positive. */
  method GetLines(files: seq<File>, key: char, maxLines: int) returns (lines: seq<string>)
    ensures lines == Capped(Values(files, key), maxLines)
  {
    lines := [];
    var k := 0;
    while k < |files|
      invariant 0 <= k <= |files|
      invariant lines == Values(files[..k], key)
      invariant maxLines > 0 ==> |lines| < maxLines
    {
      var f := files[k];
      var i := 0;
      while i < |f|
        invariant 0 <= i <= |f|
        invariant lines == Values(files[..k], key) + FileValues(f[..i], key)
        invariant maxLines > 0 ==> |lines| < maxLines
      {
        assert f[..i + 1][..i] == f[..i];
        if Kind(f[i]) == key {
          lines := lines + [Rest(f[i])];
          if maxLines > 0 && |lines| == maxLines {
            // both loops stop here
            FullStops(files, key, k, i + 1, lines, maxLines);
            return;
          }
        }
        i := i + 1;
      }
      assert f[..i] == f;
      assert files[..k + 1][..k] == files[..k];
      k := k + 1;
    }
    assert files[..k] == files;
  }

  /** get_sender: the value of the first 's' record, None without one. */
  function Sender(files: seq<File>): (r: Option<string>)
    ensures r.None? <==> Values(files, 's') == []
    ensures r.Some? ==> r.value == Values(files, 's')[0]
  {
    var lines := Capped(Values(files, 's'), 1);
    if lines != [] then Some(lines[0]) else None
  }

  /** get_senders_mta: the value of the first 'f' record, None without one. */
  function SendersMta(files: seq<File>): (r: Option<string>)
    ensures r.None? <==> Values(files, 'f') == []
    ensures r.Some? ==> r.value == Values(files, 'f')[0]
  {
    var lines := Capped(Values(files, 'f'), 1);
    if lines != [] then Some(lines[0]) else None
  }

  /** get_senders_ip before address normalisation: the text between the
      first '[' of the Received-From-MTA record and the first ']' after it. */
  function SendersIpText(files: seq<File>): (r: Option<string>)
    ensures r.Some? ==> && r.value != "" && ']' !in r.value
                        && SendersMta(files).Some? && '[' in SendersMta(files).value
                        && r.value <= After(SendersMta(files).value, '[')
  {
    match SendersMta(files)
    case None => None
    case Some(sender) =>
      if sender == "" then None
      else
        var ip := Before(After(sender, '['), ']');
        if ip == "" then None else Some(ip)
  }

  /** The bracketed address of a record "dns; name ([ip])" is what is extracted. */
  lemma BracketedAddress(head: string, ip: string, tail: string)
    requires '[' !in head && ']' !in ip && ip != ""
    ensures Before(After(head + "[" + ip + "]" + tail, '['), ']') == ip
  {
    var s := head + "[" + ip + "]" + tail;
    assert s[|head|] == '[';
    assert s[..|head|] == head;
    var i := IndexOf(s, '[').value;
    assert i == |head|;
    assert s[i + 1..] == ip + "]" + tail;
    var t := ip + "]" + tail;
    assert t[|ip|] == ']' && t[..|ip|] == ip;
  }

  lemma SendersIpOfRecord(files: seq<File>, head: string, ip: string, tail: string)
    requires SendersMta(files) == Some(head + "[" + ip + "]" + tail)
    requires '[' !in head && ']' !in ip && ip != ""
    ensures SendersIpText(files) == Some(ip)
  {
    BracketedAddress(head, ip, tail);
  }

  // ---------------------------------------------------------------------
  // Recipients
  // ---------------------------------------------------------------------

  /** The data of one recipient: rewritten address, original recipient
      (RFC 1891 ORCPT) and DSN flags, as get_recipients_data lists them. */
  datatype Rcpt = Rcpt(address: string, orig: string, dsn: string)
  {
    function AsList(): seq<string> {
      [address, orig, dsn]
    }
  }

  const Blank := Rcpt("", "", "")

  /** One entry of _get_recipients_from_file: sequence number, delivery flag, data. */
  datatype Recipient = Recipient(seqNo: nat, delivered: bool, data: Rcpt)

  /** The state of the reader: recipients so far and the one being built. */
  datatype Reader = Reader(recipients: seq<Recipient>, building: Rcpt)

  /** `int(line.split(' ', 1)[0][1:])` used as a Python index into n recipients. */
  function DeliveryIndex(line: string, n: nat): (r: Result<nat, ControlError>)
    requires line != "" && line[0] != ' '
    ensures r.Success? ==> r.value < n
  {
    var token := Before(line, ' ');
    assert token[0] == line[0];
    match ParseInt(token[1..])
    case None => Failure(ValueError)
    case Some(k) =>
      if 0 <= k < n then Success(k)
      else if k < 0 && n + k >= 0 then Success((n + k) as nat)
      else Failure(IndexError)
  }

  /** One line of _get_recipients_from_file. */
  function ReadStep(st: Reader, line: string): Result<Reader, ControlError>
  {
    var k := Kind(line);
    if k == 'r' then Success(st.(building := st.building.(address := Rest(line))))
    else if k == 'R' then Success(st.(building := st.building.(orig := Rest(line))))
    else if k == 'N' then
      var r := st.building.(dsn := Rest(line));
      var rs := if r.address != "" then st.recipients + [Recipient(|st.recipients|, false, r)]
                else st.recipients;
      Success(Reader(rs, Blank))
    else if k == 'S' || k == 'F' then
      match DeliveryIndex(line, |st.recipients|)
      case Failure(e) => Failure(e)
      case Success(n) => Success(st.(recipients := st.recipients[n := st.recipients[n].(delivered := true)]))
    else Success(st)
  }

  /** The reader after every line of a file. */
  function ReadLines(lines: File): Result<Reader, ControlError>
  {
    if lines == [] then Success(Reader([], Blank))
    else match ReadLines(lines[..|lines| - 1])
      case Failure(e) => Failure(e)
      case Success(st) => ReadStep(st, lines[|lines| - 1])
  }

  /** What reading one control file gives: its recipients, or the exception. */
  type Parse = Result<seq<Recipient>, ControlError>

  /** _get_recipients_from_file. */
  function FileRecipients(lines: File): Parse
  {
    match ReadLines(lines)
    case Failure(e) => Failure(e)
    case Success(st) => Success(st.recipients)
  }

  lemma {:induction false} ReadFailureSticks(lines: File, j: nat)
    requires j <= |lines| && ReadLines(lines[..j]).Failure?
    ensures ReadLines(lines) == ReadLines(lines[..j])
    decreases |lines|
  {
    if j < |lines| {
      var init := lines[..|lines| - 1];
      assert lines[..j] == init[..j];
      ReadFailureSticks(init, j);
    } else {
      assert lines[..j] == lines;
    }
  }

  /** _get_recipients_from_file, reading line by line. */
  method RecipientsFromFile(lines: File) returns (r: Result<seq<Recipient>, ControlError>)
    ensures r == FileRecipients(lines)
  {
    var recipients: seq<Recipient> := [];
    var building := Blank;
    var i := 0;
    while i < |lines|
      invariant 0 <= i <= |lines|
      invariant ReadLines(lines[..i]) == Success(Reader(recipients, building))
    {
      var line := lines[i];
      assert lines[..i + 1][..i] == lines[..i];
      if Kind(line) == 'r' {
        building := building.(address := Rest(line));
      }
      if Kind(line) == 'R' {
        building := building.(orig := Rest(line));
      }
      if Kind(line) == 'N' {
        building := building.(dsn := Rest(line));
        if building.address != "" {
          recipients := recipients + [Recipient(|recipients|, false, building)];
        }
        building := Blank;
      }
      if Kind(line) == 'S' || Kind(line) == 'F' {
        var n := DeliveryIndex(line, |recipients|);
        if n.Failure? {
          ReadFailureSticks(lines, i + 1);
          return Failure(n.error);
        }
        recipients := recipients[n.value := recipients[n.value].(delivered := true)];
      }
      i := i + 1;
    }
    assert lines[..i] == lines;
    return Success(recipients);
  }

  /** Recipients are numbered by position and none has an empty address. */
  predicate Numbered(recs: seq<Recipient>) {
    forall i :: 0 <= i < |recs| ==> recs[i].seqNo == i && recs[i].data.address != ""
  }

  lemma {:induction false} ReadNumbers(lines: File)
    requires ReadLines(lines).Success?
    ensures Numbered(ReadLines(lines).value.recipients)
  {
    if lines != [] {
      ReadNumbers(lines[..|lines| - 1]);
    }
  }

  /** _get_recipients_from_file lists recipient i as number i, never with an empty address. */
  lemma RecipientsNumbered(lines: File)
    requires FileRecipients(lines).Success?
    ensures Numbered(FileRecipients(lines).value)
  {
    ReadNumbers(lines);
  }

  /** The data of the recipients not yet delivered, in order. */
  function Pending(recs: seq<Recipient>): seq<Rcpt>
  {
    if recs == [] then []
    else (if recs[0].delivered then [] else [recs[0].data]) + Pending(recs[1..])
  }

  lemma PendingNext(recs: seq<Recipient>, i: nat)
    requires i < |recs|
    ensures Pending(recs[..i + 1]) == Pending(recs[..i]) + (if recs[i].delivered then [] else [recs[i].data])
  {
    assert recs[..i + 1] == recs[..i] + [recs[i]];
    PendingAppend(recs[..i], [recs[i]]);
  }

  lemma {:induction false} PendingAppend(a: seq<Recipient>, b: seq<Recipient>)
    ensures Pending(a + b) == Pending(a) + Pending(b)
  {
    if a != [] {
      assert (a + b)[1..] == a[1..] + b;
      PendingAppend(a[1..], b);
    } else {
      assert a + b == b;
    }
  }

  /** Each file of the set read by _get_recipients_from_file, in order. */
  function ParseAll(files: seq<File>): (p: seq<Parse>)
    ensures |p| == |files|
  {
    seq(|files|, i requires 0 <= i < |files| => FileRecipients(files[i]))
  }

  /** The recipients gathered so far, extended by the pending ones of one more file. */
  function Extend(acc: Result<seq<Rcpt>, ControlError>, parsed: Parse): Result<seq<Rcpt>, ControlError>
  {
    if acc.Failure? then acc
    else if parsed.Failure? then Failure(parsed.error)
    else Success(acc.value + Pending(parsed.value))
  }

  /** The pending recipients of a sequence of read files, in order; the first
      file that could not be read gives the exception. */
  function Gather(parsed: seq<Parse>): Result<seq<Rcpt>, ControlError>
  {
    if parsed == [] then Success([])
    else Extend(Gather(parsed[..|parsed| - 1]), parsed[|parsed| - 1])
  }

  /** get_recipients_data: the pending recipients of every file in order. */
  function RecipientsData(files: seq<File>): Result<seq<Rcpt>, ControlError>
  {
    Gather(ParseAll(files))
  }

  lemma {:induction false} GatherFailureSticks(p: seq<Parse>, j: nat)
    requires j <= |p| && Gather(p[..j]).Failure?
    ensures Gather(p) == Gather(p[..j])
    decreases |p|
  {
    if j < |p| {
      var init := p[..|p| - 1];
      assert p[..j] == init[..j];
      GatherFailureSticks(init, j);
    } else {
      assert p[..j] == p;
    }
  }

  /** get_recipients_data, file by file and recipient by recipient. */
  method GetRecipientsData(files: seq<File>) returns (r: Result<seq<Rcpt>, ControlError>)
    ensures r == RecipientsData(files)
  {
    ghost var p := ParseAll(files);
    var data: seq<Rcpt> := [];
    var k := 0;
    while k < |files|
      invariant 0 <= k <= |files|
      invariant Gather(p[..k]) == Success(data)
    {
      var recs := RecipientsFromFile(files[k]);
      assert p[k] == recs;
      GatherNext(p, k);
      if recs.Failure? {
        GatherFailureSticks(p, k + 1);
        return Failure(recs.error);
      }
      ghost var before := data;
      var i := 0;
      while i < |recs.value|
        invariant 0 <= i <= |recs.value|
        invariant data == before + Pending(recs.value[..i])
      {
        var x := recs.value[i];
        if !x.delivered {
          data := data + [x.data];
        }
        PendingNext(recs.value, i);
        i := i + 1;
      }
      assert recs.value[..i] == recs.value;
      k := k + 1;
    }
    assert p[..k] == p;
    return Success(data);
  }

  lemma GatherNext(p: seq<Parse>, k: nat)
    requires k < |p|
    ensures Gather(p[..k + 1]) == Extend(Gather(p[..k]), p[k])
  {
    assert p[..k + 1] == p[..k] + [p[k]];
    GatherSnoc(p[..k], p[k]);
  }

  lemma GatherSnoc(p: seq<Parse>, x: Parse)
    ensures Gather(p + [x]) == Extend(Gather(p), x)
  {
    assert (p + [x])[..|p|] == p;
  }

  /** Reading a set in two parts: it succeeds when both parts do, and lists
      the first part's recipients before the second's. */
  lemma {:induction false} GatherAppend(a: seq<Parse>, b: seq<Parse>)
    ensures Gather(a + b).Success? <==> Gather(a).Success? && Gather(b).Success?
    ensures Gather(a + b).Success? ==> Gather(a + b).value == Gather(a).value + Gather(b).value
    decreases |b|
  {
    if b == [] {
      assert a + b == a;
    } else {
      var init, x := b[..|b| - 1], b[|b| - 1];
      assert b == init + [x];
      assert a + b == (a + init) + [x];
      GatherAppend(a, init);
      GatherSnoc(a + init, x);
      GatherSnoc(init, x);
      if Gather(a + init).Success? && x.Success? {
        var q := Pending(x.value);
        assert Gather(a).value + Gather(init).value + q == Gather(a).value + (Gather(init).value + q);
      }
    }
  }

  lemma {:induction false} AllParse(p: seq<Parse>)
    requires Gather(p).Success?
    ensures forall j :: 0 <= j < |p| ==> p[j].Success?
  {
    if p != [] {
      var init := p[..|p| - 1];
      AllParse(init);
      assert forall j :: 0 <= j < |init| ==> init[j] == p[j];
    }
  }

  /** get_recipients: the addresses of the pending recipients. */
  function Recipients(files: seq<File>): (r: Result<seq<string>, ControlError>)
    ensures r.Success? <==> RecipientsData(files).Success?
    ensures r.Success? ==>
      && |r.value| == |RecipientsData(files).value|
      && forall i :: 0 <= i < |r.value| ==> r.value[i] == RecipientsData(files).value[i].address
  {
    match RecipientsData(files)
    case Failure(e) => Failure(e)
    case Success(d) => Success(seq(|d|, i requires 0 <= i < |d| => d[i].address))
  }

  // ---------------------------------------------------------------------
  // get_control_data
  // ---------------------------------------------------------------------

  /** What get_control_data returns: one field per dictionary key. */
  datatype ControlData = ControlData(
    sender: string,           // 's'
    receivedFrom: string,     // 'f'
    envid: Option<string>,    // 'e'
    ret: Option<string>,      // 't'
    verp: Option<string>,     // 'V'
    security: string,         // 'U'
    source: Option<string>,   // 'u'
    recipients: seq<Rcpt>)    // 'r'

  function Last(vs: seq<string>): Option<string> {
    if vs == [] then None else Some(vs[|vs| - 1])
  }

  function LastOr(vs: seq<string>, default: string): string {
    if vs == [] then default else vs[|vs| - 1]
  }

  const NoData := ControlData("", "", None, None, None, "", None, [])

  /** One line of get_control_data's scan. */
  function ScanStep(data: ControlData, line: string): ControlData
  {
    var k := Kind(line);
    if k == 's' then data.(sender := Rest(line))
    else if k == 'f' then data.(receivedFrom := Rest(line))
    else if k == 'e' then data.(envid := Some(Rest(line)))
    else if k == 't' then data.(ret := Some(Rest(line)))
    else if k == 'V' then data.(verp := Some("V"))
    else if k == 'U' then data.(security := Rest(line))
    else if k == 'u' then data.(source := Some(Rest(line)))
    else data
  }

  /** The scalar fields after scanning `lines` from `data`. */
  function Scan(data: ControlData, lines: seq<string>): ControlData
  {
    if lines == [] then data else ScanStep(Scan(data, lines[..|lines| - 1]), lines[|lines| - 1])
  }

  /** Every line of every file, in order. */
  function AllLines(files: seq<File>): seq<string>
  {
    if files == [] then [] else AllLines(files[..|files| - 1]) + files[|files| - 1]
  }

  /** get_control_data. */
  function ControlDataOf(files: seq<File>): Result<ControlData, ControlError>
  {
    match RecipientsData(files)
    case Failure(e) => Failure(e)
    case Success(rs) => Success(Scan(NoData, AllLines(files)).(recipients := rs))
  }

  lemma {:induction false} ScanAppend(data: ControlData, a: seq<string>, b: seq<string>)
    ensures Scan(data, a + b) == Scan(Scan(data, a), b)
    decreases |b|
  {
    if b == [] {
      assert a + b == a;
    } else {
      assert (a + b)[..|a + b| - 1] == a + b[..|b| - 1];
      ScanAppend(data, a, b[..|b| - 1]);
    }
  }

  lemma {:induction false} FileValuesAppend(a: seq<string>, b: seq<string>, key: char)
    ensures FileValues(a + b, key) == FileValues(a, key) + FileValues(b, key)
    decreases |b|
  {
    if b == [] {
      assert a + b == a;
    } else {
      assert (a + b)[..|a + b| - 1] == a + b[..|b| - 1];
      FileValuesAppend(a, b[..|b| - 1], key);
    }
  }

  lemma {:induction false} ValuesAreAllLines(files: seq<File>, key: char)
    ensures Values(files, key) == FileValues(AllLines(files), key)
  {
    if files != [] {
      ValuesAreAllLines(files[..|files| - 1], key);
      FileValuesAppend(AllLines(files[..|files| - 1]), files[|files| - 1], key);
    }
  }

  /** `d` holds, for each record type, the last value `lines` give it. */
  predicate Summarizes(d: ControlData, lines: seq<string>)
  {
    && d.sender == LastOr(FileValues(lines, 's'), "")
    && d.receivedFrom == LastOr(FileValues(lines, 'f'), "")
    && d.envid == Last(FileValues(lines, 'e'))
    && d.ret == Last(FileValues(lines, 't'))
    && d.verp == (if FileValues(lines, 'V') != [] then Some("V") else None)
    && d.security == LastOr(FileValues(lines, 'U'), "")
    && d.source == Last(FileValues(lines, 'u'))
    && d.recipients == []
  }

  lemma FileValuesSnoc(lines: seq<string>, line: string, key: char)
    ensures FileValues(lines + [line], key)
         == FileValues(lines, key) + (if Kind(line) == key then [Rest(line)] else [])
  {
    assert (lines + [line])[..|lines|] == lines;
  }

  lemma ScanStepKeepsLast(d: ControlData, lines: seq<string>, line: string)
    requires Summarizes(d, lines)
    ensures Summarizes(ScanStep(d, line), lines + [line])
  {
    FileValuesSnoc(lines, line, 's');
    FileValuesSnoc(lines, line, 'f');
    FileValuesSnoc(lines, line, 'e');
    FileValuesSnoc(lines, line, 't');
    FileValuesSnoc(lines, line, 'V');
    FileValuesSnoc(lines, line, 'U');
    FileValuesSnoc(lines, line, 'u');
  }

  /** The scan keeps the last value of each record type seen, 'V' as a flag. */
  lemma {:induction false} ScanKeepsLast(lines: seq<string>)
    ensures Summarizes(Scan(NoData, lines), lines)
  {
    if lines != [] {
      var init := lines[..|lines| - 1];
      ScanKeepsLast(init);
      ScanStepKeepsLast(Scan(NoData, init), init, lines[|lines| - 1]);
      assert init + [lines[|lines| - 1]] == lines;
    }
  }

  /** get_control_data reports, for each record type, the value of its last
      record across the whole set (which get_lines lists last), 'V' only as
      present or absent, and get_recipients_data's list. */
  lemma ControlDataIsLastRecord(files: seq<File>)
    requires RecipientsData(files).Success?
    ensures var d := ControlDataOf(files).value;
      && d.sender == LastOr(Values(files, 's'), "")
      && d.receivedFrom == LastOr(Values(files, 'f'), "")
      && d.envid == Last(Values(files, 'e'))
      && d.ret == Last(Values(files, 't'))
      && d.verp == (if Values(files, 'V') != [] then Some("V") else None)
      && d.security == LastOr(Values(files, 'U'), "")
      && d.source == Last(Values(files, 'u'))
      && d.recipients == RecipientsData(files).value
  {
    ScanKeepsLast(AllLines(files));
    ValuesAreAllLines(files, 's');
    ValuesAreAllLines(files, 'f');
    ValuesAreAllLines(files, 'e');
    ValuesAreAllLines(files, 't');
    ValuesAreAllLines(files, 'V');
    ValuesAreAllLines(files, 'U');
    ValuesAreAllLines(files, 'u');
  }

  /** get_control_data: scan every line of every file, then read the recipients. */
  method GetControlData(files: seq<File>) returns (r: Result<ControlData, ControlError>)
    ensures r == ControlDataOf(files)
  {
    var data := NoData;
    var k := 0;
    while k < |files|
      invariant 0 <= k <= |files|
      invariant data == Scan(NoData, AllLines(files[..k]))
    {
      var f := files[k];
      var i := 0;
      assert AllLines(files[..k]) + f[..0] == AllLines(files[..k]);
      while i < |f|
        invariant 0 <= i <= |f|
        invariant data == Scan(NoData, AllLines(files[..k]) + f[..i])
      {
        assert (AllLines(files[..k]) + f[..i + 1])[..|AllLines(files[..k])| + i] == AllLines(files[..k]) + f[..i];
        data := ScanStep(data, f[i]);
        i := i + 1;
      }
      assert f[..i] == f;
      assert files[..k + 1][..k] == files[..k];
      k := k + 1;
    }
    assert files[..k] == files;
    var rs := GetRecipientsData(files);
    if rs.Failure? {
      return Failure(rs.error);
    }
    return Success(data.(recipients := rs.value));
  }

  /** get_sender reports the first 's' record and get_control_data the last:
      with a single sender record they agree. */
  lemma SenderAgreesWithControlData(files: seq<File>)
    requires RecipientsData(files).Success?
    requires Values(files, 's') != []
    ensures Sender(files) == Some(Values(files, 's')[0])
    ensures ControlDataOf(files).value.sender == Values(files, 's')[|Values(files, 's')| - 1]
    ensures |Values(files, 's')| == 1 ==> Sender(files) == Some(ControlDataOf(files).value.sender)
  {
    ControlDataIsLastRecord(files);
  }

  // ---------------------------------------------------------------------
  // Adding and removing recipients
  // ---------------------------------------------------------------------

  /** The lines `'%c%s\n' % (c, field)` puts in a file: a field that holds
      line ends is written as several lines, only the first of type `c`. */
  function Records(c: char, field: string): (lines: seq<string>)
    ensures |lines| >= 1
    ensures forall i :: 0 <= i < |lines| ==> '\n' !in lines[i]
  {
    Split([c] + field, '\n')
  }

  /** A field without a line end is written as a single record. */
  lemma SingleRecord(c: char, field: string)
    requires c != '\n' && '\n' !in field
    ensures Records(c, field) == [[c] + field]
  {
    assert '\n' !in [c] + field;
  }

  /** A field with one line end is written as two lines. */
  lemma SplitRecord(c: char, a: string, b: string)
    requires c != '\n' && '\n' !in a && '\n' !in b
    ensures Records(c, a + "\n" + b) == [[c] + a, b]
  {
    assert [c] + (a + "\n" + b) == ([c] + a) + ['\n'] + b;
    SplitAtFirst([c] + a, b, '\n');
    assert Split(b, '\n') == [b];
  }

  /** A field that a control-file line can hold: no line feed, and no
      carriage return, which a reader with universal newlines also ends a
      line at. */
  predicate OneLine(s: string) {
    '\n' !in s && '\r' !in s
  }

  /** Recipient data that add_recipient_data writes as exactly three records. */
  predicate Writable(data: seq<string>) {
    |data| == 3 && OneLine(data[0]) && OneLine(data[1]) && OneLine(data[2])
  }

  /** The lines add_recipient_data appends for one recipient. */
  function RecipientRecords(data: seq<string>): seq<string>
    requires |data| == 3
  {
    Records('r', data[0]) + Records('R', data[1]) + Records('N', data[2])
  }

  /** Single-line fields give one `r`, one `R` and one `N` record. */
  lemma WritableRecords(data: seq<string>)
    requires Writable(data)
    ensures RecipientRecords(data) == ["r" + data[0], "R" + data[1], "N" + data[2]]
  {
    SingleRecord('r', data[0]);
    SingleRecord('R', data[1]);
    SingleRecord('N', data[2]);
  }

  /** The two records _mark_complete appends for recipient `n` at time `now`. */
  function CompletionRecords(n: nat, now: int): seq<string>
  {
    ["I" + Dec(n) + " R 250 Ok - Removed by courier.control.py", "S" + Dec(n) + " " + IntToString(now)]
  }

  /** The set after add_recipient_data, or the exception it raises. */
  function AddedRecipient(files: seq<File>, data: seq<string>): Result<seq<File>, ControlError>
  {
    if |data| != 3 then Failure(ValueError)
    else if files == [] then Failure(IndexError)
    else Success(files[|files| - 1 := files[|files| - 1] + RecipientRecords(data)])
  }

  /** What del_recipient (an address) and del_recipient_data (the three
      fields) look for. */
  datatype Target = Address(address: string) | Data(data: seq<string>)

  predicate Matches(t: Target, r: Rcpt) {
    match t
    case Address(a) => r.address == a
    case Data(d) => r.AsList() == d
  }

  /** The position of the first undelivered recipient from `i` on that matches `t`. */
  function FirstPending(recs: seq<Recipient>, t: Target, i: nat): (r: Option<nat>)
    requires i <= |recs|
    ensures r.Some? ==> i <= r.value < |recs| && !recs[r.value].delivered && Matches(t, recs[r.value].data)
    ensures forall j :: i <= j < |recs| && (r.None? || j < r.value) ==>
      recs[j].delivered || !Matches(t, recs[j].data)
    decreases |recs| - i
  {
    if i == |recs| then None
    else if !recs[i].delivered && Matches(t, recs[i].data) then Some(i)
    else FirstPending(recs, t, i + 1)
  }

  /** Where a deletion marks: the first file from `k` on that holds an
      undelivered recipient matching `t`, with that recipient's number.
      Files after it are not read, so they cannot raise. */
  function Locate(parsed: seq<Parse>, t: Target, k: nat): (r: Result<Option<(nat, nat)>, ControlError>)
    requires k <= |parsed|
    ensures r.Success? && r.value.Some? ==> k <= r.value.value.0 < |parsed|
    decreases |parsed| - k
  {
    if k == |parsed| then Success(None)
    else match parsed[k]
      case Failure(e) => Failure(e)
      case Success(recs) =>
        match FirstPending(recs, t, 0)
        case Some(i) => Success(Some((k, recs[i].seqNo)))
        case None => Locate(parsed, t, k + 1)
  }

  /** The set after del_recipient or del_recipient_data at time `now`, or
      the exception raised. */
  function Deleted(files: seq<File>, t: Target, now: int): Result<seq<File>, ControlError>
  {
    if t.Data? && |t.data| != 3 then Failure(ValueError)
    else match Locate(ParseAll(files), t, 0)
      case Failure(e) => Failure(e)
      case Success(None) => Success(files)
      case Success(Some((k, n))) => Success(files[k := files[k] + CompletionRecords(n, now)])
  }

  /** A message's control-file set; its methods append records to the files. */
  class ControlFiles {
    var files: seq<File>

    constructor (files: seq<File>)
      ensures this.files == files
    {
      this.files := files;
    }

    /** add_recipient_data: append the recipient's records to the last file. */
    method AddRecipientData(data: seq<string>) returns (err: Option<ControlError>)
      modifies this
      ensures AddedRecipient(old(files), data).Success? ==>
        err == None && files == AddedRecipient(old(files), data).value
      ensures AddedRecipient(old(files), data).Failure? ==>
        err == Some(AddedRecipient(old(files), data).error) && files == old(files)
    {
      if |data| != 3 {
        return Some(ValueError);
      }
      if files == [] {
        return Some(IndexError);
      }
      var last := |files| - 1;
      files := files[last := files[last] + Records('r', data[0])];
      files := files[last := files[last] + Records('R', data[1])];
      files := files[last := files[last] + Records('N', data[2])];
      assert files[last] == old(files)[last] + RecipientRecords(data);
      return None;
    }

    /** add_recipient: a recipient with only an address. */
    method AddRecipient(address: string) returns (err: Option<ControlError>)
      modifies this
      ensures old(files) == [] ==> err == Some(IndexError) && files == old(files)
      ensures old(files) != [] ==> err == None && files == AddedRecipient(old(files), [address, "", ""]).value
    {
      err := AddRecipientData([address, "", ""]);
    }

    /** _mark_complete: append the records that close recipient `n` of file `k`. */
    method MarkComplete(k: nat, n: nat, now: int)
      requires k < |files|
      modifies this
      ensures files == old(files)[k := old(files)[k] + CompletionRecords(n, now)]
    {
      files := files[k := files[k] + CompletionRecords(n, now)];
    }

    /** The scan del_recipient and del_recipient_data share: mark the first
        undelivered recipient matching `t` complete. */
    method DeleteFirst(t: Target, now: int) returns (err: Option<ControlError>)
      requires !(t.Data? && |t.data| != 3)
      modifies this
      ensures Deleted(old(files), t, now).Success? ==> err == None && files == Deleted(old(files), t, now).value
      ensures Deleted(old(files), t, now).Failure? ==>
        err == Some(Deleted(old(files), t, now).error) && files == old(files)
    {
      ghost var p := ParseAll(files);
      var k := 0;
      while k < |files|
        invariant 0 <= k <= |files|
        invariant files == old(files)
        invariant Locate(p, t, k) == Locate(p, t, 0)
      {
        var recs := RecipientsFromFile(files[k]);
        assert p[k] == recs;
        if recs.Failure? {
          return Some(recs.error);
        }
        var i := 0;
        while i < |recs.value|
          invariant 0 <= i <= |recs.value|
          invariant FirstPending(recs.value, t, i) == FirstPending(recs.value, t, 0)
        {
          var x := recs.value[i];
          if !x.delivered && Matches(t, x.data) {
            MarkComplete(k, x.seqNo, now);
            return None;
          }
          i := i + 1;
        }
        k := k + 1;
      }
      return None;
    }

    /** del_recipient: close the first undelivered recipient with this address. */
    method DelRecipient(address: string, now: int) returns (err: Option<ControlError>)
      modifies this
      ensures Deleted(old(files), Address(address), now).Success? ==>
        err == None && files == Deleted(old(files), Address(address), now).value
      ensures Deleted(old(files), Address(address), now).Failure? ==>
        err == Some(Deleted(old(files), Address(address), now).error) && files == old(files)
    {
      err := DeleteFirst(Address(address), now);
    }

    /** del_recipient_data: close the first undelivered recipient with these fields. */
    method DelRecipientData(data: seq<string>, now: int) returns (err: Option<ControlError>)
      modifies this
      ensures Deleted(old(files), Data(data), now).Success? ==>
        err == None && files == Deleted(old(files), Data(data), now).value
      ensures Deleted(old(files), Data(data), now).Failure? ==>
        err == Some(Deleted(old(files), Data(data), now).error) && files == old(files)
    {
      if |data| != 3 {
        return Some(ValueError);
      }
      err := DeleteFirst(Data(data), now);
    }
  }

  // ---------------------------------------------------------------------
  // What adding and removing do to the recipient list
  // ---------------------------------------------------------------------

  lemma ReadSnoc(lines: File, line: string)
    ensures ReadLines(lines + [line]) ==
      match ReadLines(lines)
      case Failure(e) => Failure(e)
      case Success(st) => ReadStep(st, line)
  {
    assert (lines + [line])[..|lines|] == lines;
  }

  /** The recipient the three records of add_recipient_data describe. */
  function Described(data: seq<string>): Rcpt
    requires |data| == 3
  {
    Rcpt(Strip(data[0]), Strip(data[1]), Strip(data[2]))
  }

  /** An 'r' or 'R' record sets a field of the recipient being built. */
  lemma ReadFieldRecord(lines: File, c: char, v: string)
    requires (c == 'r' || c == 'R') && ReadLines(lines).Success?
    ensures var st := ReadLines(lines).value;
      ReadLines(lines + [[c] + v]) == Success(st.(building :=
        if c == 'r' then st.building.(address := Strip(v)) else st.building.(orig := Strip(v))))
  {
    RestOfRecord(c, v);
    ReadSnoc(lines, [c] + v);
  }

  /** An 'N' record completes the recipient being built. */
  lemma ReadDsnRecord(lines: File, v: string)
    requires ReadLines(lines).Success?
    ensures var st := ReadLines(lines).value;
      var r := st.building.(dsn := Strip(v));
      ReadLines(lines + [['N'] + v]) == Success(Reader(
        st.recipients + (if r.address != "" then [Recipient(|st.recipients|, false, r)] else []), Blank))
  {
    var st := ReadLines(lines).value;
    RestOfRecord('N', v);
    ReadSnoc(lines, ['N'] + v);
    assert st.recipients + [] == st.recipients;
  }

  lemma ReadRecipientRecords(lines: File, data: seq<string>)
    requires Writable(data) && ReadLines(lines).Success?
    ensures var st := ReadLines(lines).value;
      ReadLines(lines + RecipientRecords(data)) == Success(Reader(
        st.recipients + (if Strip(data[0]) != "" then [Recipient(|st.recipients|, false, Described(data))] else []),
        Blank))
  {
    WritableRecords(data);
    var recs := RecipientRecords(data);
    var l1 := lines + [recs[0]];
    var l2 := l1 + [recs[1]];
    ReadFieldRecord(lines, 'r', data[0]);
    ReadFieldRecord(l1, 'R', data[1]);
    ReadDsnRecord(l2, data[2]);
    assert lines + recs == l2 + [recs[2]];
  }

  lemma ParseAllUpdate(files: seq<File>, m: nat, g: File)
    requires m < |files|
    ensures ParseAll(files[m := g]) == ParseAll(files)[m := FileRecipients(g)]
  {
  }

  lemma GatherLast(p: seq<Parse>, x: Parse)
    requires p != []
    ensures Gather(p[|p| - 1 := x]) == Extend(Gather(p[..|p| - 1]), x)
  {
    assert p[|p| - 1 := x] == p[..|p| - 1] + [x];
    GatherSnoc(p[..|p| - 1], x);
  }

  /** add_recipient_data makes exactly one more pending recipient, at the
      end of get_recipients_data's list, holding the stripped fields; a
      recipient whose address strips to nothing is never listed. */
  lemma AddAppendsRecipient(files: seq<File>, data: seq<string>)
    requires Writable(data) && files != [] && RecipientsData(files).Success?
    ensures AddedRecipient(files, data).Success?
    ensures RecipientsData(AddedRecipient(files, data).value)
         == Success(RecipientsData(files).value + (if Strip(data[0]) != "" then [Described(data)] else []))
  {
    var p := ParseAll(files);
    var last := |files| - 1;
    var f := files[last];
    AllParse(p);
    assert p[last] == FileRecipients(f);
    var st := ReadLines(f).value;
    ReadRecipientRecords(f, data);
    var f' := f + RecipientRecords(data);
    var added := if Strip(data[0]) != "" then [Recipient(|st.recipients|, false, Described(data))] else [];
    assert FileRecipients(f') == Success(st.recipients + added);
    ParseAllUpdate(files, last, f');
    GatherLast(p, FileRecipients(f'));
    assert p[last := p[last]] == p;
    GatherLast(p, p[last]);
    PendingAppend(st.recipients, added);
    assert Pending(added) == if Strip(data[0]) != "" then [Described(data)] else [];
    var done := Gather(p[..last]).value;
    assert RecipientsData(files) == Success(done + Pending(st.recipients));
    assert done + (Pending(st.recipients) + Pending(added)) == (done + Pending(st.recipients)) + Pending(added);
  }

  /** Recipient data as get_recipients_data would list it back. */
  predicate Clean(d: Rcpt) {
    && d.address != "" && IsStripped(d.address) && IsStripped(d.orig) && IsStripped(d.dsn)
    && OneLine(d.address) && OneLine(d.orig) && OneLine(d.dsn)
  }

  /** add_recipient_data then get_recipients_data gives the old list plus the new recipient. */
  lemma AddThenGetRecipientsData(files: seq<File>, d: Rcpt)
    requires files != [] && RecipientsData(files).Success? && Clean(d)
    ensures RecipientsData(AddedRecipient(files, d.AsList()).value) == Success(RecipientsData(files).value + [d])
  {
    AddAppendsRecipient(files, d.AsList());
  }

  /** add_recipient then get_recipients ends with the address added. */
  lemma AddRecipientThenGetRecipients(files: seq<File>, address: string)
    requires files != [] && RecipientsData(files).Success?
    requires address != "" && IsStripped(address) && OneLine(address)
    ensures Recipients(AddedRecipient(files, [address, "", ""]).value)
         == Success(Recipients(files).value + [address])
  {
    AddThenGetRecipientsData(files, Rcpt(address, "", ""));
    assert Rcpt(address, "", "").AsList() == [address, "", ""];
    var d := RecipientsData(files).value;
    var d' := d + [Rcpt(address, "", "")];
    var names := seq(|d'|, i requires 0 <= i < |d'| => d'[i].address);
    assert names == seq(|d|, i requires 0 <= i < |d| => d[i].address) + [address];
  }

  /** A line that is not a record the reader knows changes nothing. */
  lemma OtherLine(lines: File, x: string)
    requires ReadLines(lines).Success? && Kind(x) !in {'r', 'R', 'N', 'S', 'F'}
    ensures ReadLines(lines + [x]) == ReadLines(lines)
  {
    ReadSnoc(lines, x);
  }

  /** A line end in an address splits its record: the address a + "\n" + b is
      written as an `r` record for a and a stray line b, and reads back as the
      address a. */
  lemma LineEndSplitsRecord(a: string, b: string)
    requires a != "" && IsStripped(a) && '\n' !in a && '\n' !in b
    requires Kind(b) !in {'r', 'R', 'N', 'S', 'F'}
    ensures RecipientRecords([a + "\n" + b, "", ""]) == ["r" + a, b, "R", "N"]
    ensures RecipientsData([RecipientRecords([a + "\n" + b, "", ""])]) == Success([Rcpt(a, "", "")])
  {
    SplitRecord('r', a, b);
    SingleRecord('R', "");
    SingleRecord('N', "");
    var lines := ["r" + a, b, "R", "N"];
    var d := [a + "\n" + b, "", ""];
    assert d[0] == a + "\n" + b && d[1] == "" && d[2] == "";
    assert Records('r', d[0]) == ["r" + a, b];
    assert ['R'] + "" == "R";
    assert Records('R', "") == ["R"];
    assert Records('R', d[1]) == ["R"];
    assert ['N'] + "" == "N";
    assert Records('N', "") == ["N"];
    assert Records('N', d[2]) == ["N"];
    assert RecipientRecords(d) == lines;
    StrayRead(a, b);
    SingleFile(lines);
    assert Pending([Recipient(0, false, Rcpt(a, "", ""))]) == [Rcpt(a, "", "")];
  }

  /** The recipients of a single control file. */
  lemma SingleFile(lines: File)
    requires FileRecipients(lines).Success?
    ensures RecipientsData([lines]) == Success(Pending(FileRecipients(lines).value))
  {
    assert ParseAll([lines]) == [FileRecipients(lines)];
    GatherSingle(FileRecipients(lines));
  }

  lemma StrayRead(a: string, b: string)
    requires a != "" && IsStripped(a) && Kind(b) !in {'r', 'R', 'N', 'S', 'F'}
    ensures FileRecipients(["r" + a, b, "R", "N"]) == Success([Recipient(0, false, Rcpt(a, "", ""))])
  {
    var lines := ["r" + a, b, "R", "N"];
    var one := Reader([], Rcpt(a, "", ""));
    ReadFieldRecord([], 'r', a);
    assert [] + [['r'] + a] == lines[..1];
    assert ReadLines(lines[..1]) == Success(one);
    OtherLine(lines[..1], b);
    assert lines[..1] + [b] == lines[..2];
    assert ReadLines(lines[..2]) == Success(one);
    ReadFieldRecord(lines[..2], 'R', "");
    assert ['R'] + "" == "R";
    assert lines[..2] + ["R"] == lines[..3];
    assert ReadLines(lines[..3]) == Success(one);
    ReadDsnRecord(lines[..3], "");
    assert ['N'] + "" == "N";
    assert lines[..3] + [['N'] + ""] == lines;
    assert Strip("") == "";
    assert one.building.(dsn := Strip("")) == Rcpt(a, "", "");
    var done := [Recipient(0, false, Rcpt(a, "", ""))];
    assert [] + done == done;
    assert ReadLines(lines) == Success(Reader(done, Blank));
  }

  /** `int("0")` picks the first recipient of a file that has one. */
  lemma FirstDelivered()
    ensures DeliveryIndex("S0 1", 1) == Success(0)
  {
    var s := "S0 1";
    assert s == "S0" + [' '] + "1";
    assert IndexOf(s, ' ') == Some(2);
    assert Before(s, ' ') == "S0";
    assert Strip("0") == "0";
  }

  /** A line end in an original recipient can write a delivery record: after
      a file's pending recipient prev, the original recipient x + "\nS0 1"
      writes the line `S0 1`, which marks prev delivered, so only the new
      recipient is left pending. */
  lemma LineEndInjectsDelivery(prev: string, a: string, x: string)
    requires prev != "" && IsStripped(prev) && OneLine(prev)
    requires a != "" && IsStripped(a) && '\n' !in a && IsStripped(x) && '\n' !in x
    ensures RecipientRecords([a, x + "\nS0 1", ""]) == ["r" + a, "R" + x, "S0 1", "N"]
    ensures RecipientsData([RecipientRecords([prev, "", ""]) + RecipientRecords([a, x + "\nS0 1", ""])])
         == Success([Rcpt(a, x, "")])
  {
    var d := [a, x + "\nS0 1", ""];
    assert d[0] == a && d[2] == "";
    assert d[1] == x + "\n" + "S0 1";
    SingleRecord('r', a);
    SplitRecord('R', x, "S0 1");
    SingleRecord('N', "");
    assert ['N'] + "" == "N";
    assert Records('R', d[1]) == ["R" + x, "S0 1"];
    assert RecipientRecords(d) == ["r" + a, "R" + x, "S0 1", "N"];
    var l3 := RecipientRecords([prev, "", ""]);
    var first := Recipient(0, false, Rcpt(prev, "", ""));
    PendingRead(prev);
    InjectedRead(l3, first, a, x);
    var recs := [first.(delivered := true), Recipient(1, false, Rcpt(a, x, ""))];
    assert Pending(recs) == [Rcpt(a, x, "")] by {
      assert recs[1..] == [recs[1]];
      assert Pending([recs[1]]) == [Rcpt(a, x, "")];
    }
    SingleFile(l3 + ["r" + a, "R" + x, "S0 1", "N"]);
  }

  /** A file holding one pending recipient. */
  lemma PendingRead(prev: string)
    requires prev != "" && IsStripped(prev) && OneLine(prev)
    ensures ReadLines(RecipientRecords([prev, "", ""]))
         == Success(Reader([Recipient(0, false, Rcpt(prev, "", ""))], Blank))
  {
    var l3 := RecipientRecords([prev, "", ""]);
    var first := Recipient(0, false, Rcpt(prev, "", ""));
    ReadRecipientRecords([], [prev, "", ""]);
    assert [] + l3 == l3;
    assert Strip("") == "";
    assert Described([prev, "", ""]) == Rcpt(prev, "", "");
    assert [] + [first] == [first];
  }

  /** The line `S0 1` marks the only recipient read so far delivered. */
  lemma DeliveryLine(lines: File, first: Recipient, building: Rcpt)
    requires ReadLines(lines) == Success(Reader([first], building))
    ensures ReadLines(lines + ["S0 1"]) == Success(Reader([first.(delivered := true)], building))
  {
    FirstDelivered();
    ReadSnoc(lines, "S0 1");
    assert Kind("S0 1") == 'S';
    assert [first][0 := first.(delivered := true)] == [first.(delivered := true)];
  }

  /** Then an empty `N` record completes the recipient being built. */
  lemma DeliveryThenDsn(lines: File, first: Recipient, building: Rcpt)
    requires ReadLines(lines) == Success(Reader([first], building))
    requires building.address != "" && building.dsn == ""
    ensures ReadLines(lines + ["S0 1", "N"])
         == Success(Reader([first.(delivered := true), Recipient(1, false, building)], Blank))
  {
    DeliveryLine(lines, first, building);
    ReadDsnRecord(lines + ["S0 1"], "");
    assert ['N'] + "" == "N";
    assert Strip("") == "";
    assert building.(dsn := "") == building;
    assert [first.(delivered := true)] + [Recipient(1, false, building)]
        == [first.(delivered := true), Recipient(1, false, building)];
    assert lines + ["S0 1"] + ["N"] == lines + ["S0 1", "N"];
  }

  /** Reading a new recipient whose original recipient wrote a delivery
      record for the first recipient of the file. */
  lemma InjectedRead(l3: File, first: Recipient, a: string, x: string)
    requires ReadLines(l3) == Success(Reader([first], Blank))
    requires a != "" && IsStripped(a) && IsStripped(x)
    ensures FileRecipients(l3 + ["r" + a, "R" + x, "S0 1", "N"])
         == Success([first.(delivered := true), Recipient(1, false, Rcpt(a, x, ""))])
  {
    ReadFieldRecord(l3, 'r', a);
    ReadFieldRecord(l3 + [['r'] + a], 'R', x);
    var l5 := l3 + [['r'] + a] + [['R'] + x];
    assert ReadLines(l5) == Success(Reader([first], Rcpt(a, x, "")));
    DeliveryThenDsn(l5, first, Rcpt(a, x, ""));
    assert l5 + ["S0 1", "N"] == l3 + ["r" + a, "R" + x, "S0 1", "N"];
  }

  /** The list without its first element matching `t`. */
  function RemoveFirst(rs: seq<Rcpt>, t: Target): seq<Rcpt>
  {
    if rs == [] then []
    else if Matches(t, rs[0]) then rs[1..]
    else [rs[0]] + RemoveFirst(rs[1..], t)
  }

  predicate NoMatch(rs: seq<Rcpt>, t: Target) {
    forall j :: 0 <= j < |rs| ==> !Matches(t, rs[j])
  }

  lemma {:induction false} RemoveFirstSkips(p: seq<Rcpt>, q: seq<Rcpt>, t: Target)
    requires NoMatch(p, t)
    ensures RemoveFirst(p + q, t) == p + RemoveFirst(q, t)
  {
    if p != [] {
      assert (p + q)[1..] == p[1..] + q;
      RemoveFirstSkips(p[1..], q, t);
    } else {
      assert p + q == q;
    }
  }

  lemma {:induction false} RemoveFirstStops(p: seq<Rcpt>, q: seq<Rcpt>, t: Target)
    requires !NoMatch(p, t)
    ensures RemoveFirst(p + q, t) == RemoveFirst(p, t) + q
  {
    assert p != [];
    assert (p + q)[1..] == p[1..] + q;
    if !Matches(t, p[0]) {
      RemoveFirstStops(p[1..], q, t);
    }
  }

  lemma {:induction false} PendingNoMatch(recs: seq<Recipient>, t: Target)
    requires forall j :: 0 <= j < |recs| ==> recs[j].delivered || !Matches(t, recs[j].data)
    ensures NoMatch(Pending(recs), t)
  {
    if recs != [] {
      PendingNoMatch(recs[1..], t);
    }
  }

  /** Marking the first pending match delivered drops exactly that recipient
      from the pending list. */
  lemma MarkDropsFirstMatch(recs: seq<Recipient>, t: Target, i: nat)
    requires FirstPending(recs, t, 0) == Some(i)
    ensures !NoMatch(Pending(recs), t)
    ensures Pending(recs[i := recs[i].(delivered := true)]) == RemoveFirst(Pending(recs), t)
  {
    var recs' := recs[i := recs[i].(delivered := true)];
    var a, b := recs[..i], recs[i + 1..];
    PendingSplit(recs, i);
    PendingSplit(recs', i);
    assert recs'[..i] == a && recs'[i + 1..] == b;
    assert forall j :: 0 <= j < |a| ==> a[j] == recs[j];
    PendingNoMatch(a, t);
    RemoveAtMatch(Pending(a), recs[i].data, Pending(b), t);
  }

  /** The pending list around position `i`. */
  lemma PendingSplit(recs: seq<Recipient>, i: nat)
    requires i < |recs|
    ensures Pending(recs) == Pending(recs[..i])
      + ((if recs[i].delivered then [] else [recs[i].data]) + Pending(recs[i + 1..]))
  {
    var a, x, b := recs[..i], recs[i], recs[i + 1..];
    assert recs == a + ([x] + b);
    PendingAppend(a, [x] + b);
    assert ([x] + b)[1..] == b;
  }

  lemma RemoveAtMatch(p: seq<Rcpt>, x: Rcpt, q: seq<Rcpt>, t: Target)
    requires NoMatch(p, t) && Matches(t, x)
    ensures !NoMatch(p + ([x] + q), t)
    ensures RemoveFirst(p + ([x] + q), t) == p + q
  {
    RemoveFirstSkips(p, [x] + q, t);
    assert (p + ([x] + q))[|p|] == x;
    assert ([x] + q)[1..] == q;
  }

  /** The 'S' record _mark_complete writes names recipient `n`. */
  lemma CompletionIndex(n: nat, now: int, count: nat)
    requires n < count
    ensures var line := CompletionRecords(n, now)[1];
      line != "" && Kind(line) == 'S' && DeliveryIndex(line, count) == Success(n)
  {
    var line := CompletionRecords(n, now)[1];
    assert line == "S" + (Dec(n) + " " + IntToString(now));
    assert line[1 + |Dec(n)|] == ' ';
    assert ' ' !in line[..1 + |Dec(n)|];
    assert Before(line, ' ') == "S" + Dec(n);
    assert Before(line, ' ')[1..] == Dec(n);
    ParseDec(n);
  }

  lemma ReadCompletionRecords(lines: File, n: nat, now: int)
    requires ReadLines(lines).Success? && n < |ReadLines(lines).value.recipients|
    ensures var st := ReadLines(lines).value;
      ReadLines(lines + CompletionRecords(n, now))
        == Success(st.(recipients := st.recipients[n := st.recipients[n].(delivered := true)]))
  {
    var recs := CompletionRecords(n, now);
    var st := ReadLines(lines).value;
    ReadSnoc(lines, recs[0]);
    assert Kind(recs[0]) == 'I';
    assert ReadLines(lines + [recs[0]]) == Success(st);
    assert lines + recs == (lines + [recs[0]]) + [recs[1]];
    ReadSnoc(lines + [recs[0]], recs[1]);
    CompletionIndex(n, now, |st.recipients|);
  }

  /** A file read without error that holds no undelivered recipient matching `t`. */
  predicate Misses(r: Parse, t: Target) {
    r.Success? && FirstPending(r.value, t, 0).None?
  }

  lemma {:induction false} LocateMisses(p: seq<Parse>, t: Target, k: nat)
    requires k <= |p| && Locate(p, t, k) == Success(None)
    ensures forall j :: k <= j < |p| ==> Misses(p[j], t)
    decreases |p| - k
  {
    if k < |p| {
      LocateMisses(p, t, k + 1);
    }
  }

  lemma {:induction false} LocateHits(p: seq<Parse>, t: Target, k: nat, m: nat, n: nat) returns (i: nat)
    requires k <= |p| && Locate(p, t, k) == Success(Some((m, n)))
    ensures k <= m < |p|
    ensures forall j :: k <= j < m ==> Misses(p[j], t)
    ensures p[m].Success? && FirstPending(p[m].value, t, 0) == Some(i)
    ensures p[m].value[i].seqNo == n
    decreases |p| - k
  {
    var recs := p[k].value;
    if FirstPending(recs, t, 0).Some? {
      i := FirstPending(recs, t, 0).value;
    } else {
      i := LocateHits(p, t, k + 1, m, n);
    }
  }

  lemma {:induction false} LocateParses(p: seq<Parse>, t: Target, k: nat)
    requires k <= |p|
    requires forall j :: k <= j < |p| ==> p[j].Success?
    ensures Locate(p, t, k).Success?
    decreases |p| - k
  {
    if k < |p| {
      LocateParses(p, t, k + 1);
    }
  }

  lemma {:induction false} MissedNoMatch(p: seq<Parse>, t: Target, m: nat)
    requires m <= |p|
    requires forall j :: 0 <= j < m ==> Misses(p[j], t)
    ensures Gather(p[..m]).Success? && NoMatch(Gather(p[..m]).value, t)
  {
    if m > 0 {
      MissedNoMatch(p, t, m - 1);
      assert p[..m] == p[..m - 1] + [p[m - 1]];
      GatherSnoc(p[..m - 1], p[m - 1]);
      PendingNoMatch(p[m - 1].value, t);
    }
  }

  lemma GatherSingle(x: Parse)
    requires x.Success?
    ensures Gather([x]) == Success(Pending(x.value))
  {
    assert [x][..0] == [];
    assert [] + Pending(x.value) == Pending(x.value);
  }

  /** The recipients of a set with one read file replaced by another. */
  lemma ReplaceParse(p: seq<Parse>, m: nat, x: Parse)
    requires m < |p| && Gather(p).Success? && x.Success?
    ensures p[m].Success?
    ensures var d1, d2 := Gather(p[..m]), Gather(p[m + 1..]);
      && d1.Success? && d2.Success?
      && Gather(p).value == d1.value + (Pending(p[m].value) + d2.value)
      && Gather(p[m := x]) == Success(d1.value + (Pending(x.value) + d2.value))
  {
    var before, y, after := p[..m], p[m], p[m + 1..];
    assert p == before + ([y] + after);
    assert p[m := x] == before + ([x] + after);
    GatherAppend(before, [y] + after);
    GatherAppend([y], after);
    assert [y][0] == y;
    AllParse([y]);
    GatherSingle(y);
    GatherSingle(x);
    GatherAppend([x], after);
    GatherAppend(before, [x] + after);
  }

  lemma DeleteWithoutMatch(files: seq<File>, t: Target, now: int)
    requires RecipientsData(files).Success? && Locate(ParseAll(files), t, 0) == Success(None)
    requires !(t.Data? && |t.data| != 3)
    ensures Deleted(files, t, now) == Success(files)
    ensures RemoveFirst(RecipientsData(files).value, t) == RecipientsData(files).value
  {
    var p := ParseAll(files);
    var d := RecipientsData(files).value;
    LocateMisses(p, t, 0);
    MissedNoMatch(p, t, |p|);
    assert p[..|p|] == p;
    RemoveFirstSkips(d, [], t);
    assert d + [] == d;
  }

  /** The completion records of the first pending match of a file drop that
      recipient from the file's pending list. */
  lemma CompleteFirstMatch(f: File, t: Target, i: nat, now: int)
    requires FileRecipients(f).Success? && FirstPending(FileRecipients(f).value, t, 0) == Some(i)
    ensures var recs := FileRecipients(f).value;
      var g := f + CompletionRecords(recs[i].seqNo, now);
      && FileRecipients(g).Success?
      && !NoMatch(Pending(recs), t)
      && Pending(FileRecipients(g).value) == RemoveFirst(Pending(recs), t)
  {
    var recs := FileRecipients(f).value;
    RecipientsNumbered(f);
    ReadCompletionRecords(f, i, now);
    MarkDropsFirstMatch(recs, t, i);
  }

  lemma DeleteWithMatch(files: seq<File>, t: Target, now: int, m: nat, n: nat)
    requires RecipientsData(files).Success? && Locate(ParseAll(files), t, 0) == Success(Some((m, n)))
    ensures m < |files|
    ensures RecipientsData(files[m := files[m] + CompletionRecords(n, now)])
         == Success(RemoveFirst(RecipientsData(files).value, t))
  {
    var p := ParseAll(files);
    var i := LocateHits(p, t, 0, m, n);
    var f := files[m];
    assert p[m] == FileRecipients(f);
    var g := f + CompletionRecords(n, now);
    MissedNoMatch(p, t, m);
    CompleteFirstMatch(f, t, i, now);
    ParseAllUpdate(files, m, g);
    ReplaceParse(p, m, FileRecipients(g));
    var d1, q, d2 := Gather(p[..m]).value, Pending(FileRecipients(f).value), Gather(p[m + 1..]).value;
    RemoveFirstSkips(d1, q + d2, t);
    RemoveFirstStops(q, d2, t);
  }

  /** del_recipient and del_recipient_data remove exactly the first pending
      recipient that matches from get_recipients_data's list, and leave the
      set as it was when none matches. */
  lemma DeleteRemovesFirstMatch(files: seq<File>, t: Target, now: int)
    requires RecipientsData(files).Success?
    requires !(t.Data? && |t.data| != 3)
    ensures Deleted(files, t, now).Success?
    ensures RecipientsData(Deleted(files, t, now).value) == Success(RemoveFirst(RecipientsData(files).value, t))
  {
    var p := ParseAll(files);
    AllParse(p);
    LocateParses(p, t, 0);
    match Locate(p, t, 0).value
    case None =>
      DeleteWithoutMatch(files, t, now);
    case Some((m, n)) =>
      DeleteWithMatch(files, t, now, m, n);
      assert Deleted(files, t, now) == Success(files[m := files[m] + CompletionRecords(n, now)]);
  }

  /** Adding a recipient and then deleting it, by address or by its three
      fields, leaves get_recipients_data's list as it was, provided no
      pending recipient already matched. */
  lemma AddThenDeleteRestores(files: seq<File>, d: Rcpt, byAddress: bool, now: int)
    requires files != [] && RecipientsData(files).Success? && Clean(d)
    requires var t := if byAddress then Address(d.address) else Data(d.AsList());
      NoMatch(RecipientsData(files).value, t)
    ensures var t := if byAddress then Address(d.address) else Data(d.AsList());
      var added := AddedRecipient(files, d.AsList()).value;
      && Deleted(added, t, now).Success?
      && RecipientsData(Deleted(added, t, now).value) == RecipientsData(files)
  {
    var t := if byAddress then Address(d.address) else Data(d.AsList());
    AddThenGetRecipientsData(files, d);
    var added := AddedRecipient(files, d.AsList()).value;
    DeleteRemovesFirstMatch(added, t, now);
    RemoveFirstSkips(RecipientsData(files).value, [d], t);
    assert RecipientsData(files).value + [] == RecipientsData(files).value;
  }

  // ---------------------------------------------------------------------
  // get_auth_user
  // ---------------------------------------------------------------------

  /** `readline()` on a message body given as its lines, each with its line
      end: the line at `i`, '' past the end of the file. */
  function ReadLine(body: seq<string>, i: nat): string {
    if i < |body| then body[i] else ""
  }

  /** A blank line or the end of the file ends the header block. */
  predicate EndsHeaders(line: string) {
    line == "\n" || line == ""
  }

  /** A line that starts with white space continues the header before it. */
  predicate IsContinuation(line: string) {
    line != "" && IsSpace(line[0])
  }

  /** `header[:9] == 'Received:'`. */
  predicate IsReceived(header: string) {
    "Received:" <= header
  }

  /** None of `hs` is a Received: header. */
  predicate NoneReceived(hs: seq<string>) {
    forall j :: 0 <= j < |hs| ==> !IsReceived(hs[j])
  }

  /** No line from 1 up to `i` (exclusive) ends the header block. */
  predicate OpenBefore(lines: seq<string>, i: nat) {
    forall j :: 1 <= j < i ==> !EndsHeaders(ReadLine(lines, j))
  }

  /** What _check_header decides about one header. `search` stands for the
      compiled _auth_regex: the text of its first group, or None without a match. */
  datatype Check = NotReceived | Unmatched | User(name: string)

  function CheckHeader(header: string, search: string -> Option<string>): (r: Check)
    ensures r.NotReceived? <==> !IsReceived(header)
  {
    if !IsReceived(header) then NotReceived
    else match search(header)
      case None => Unmatched
      case Some(g) => User(g)
  }

  /** The first line at or after `i` (i >= 1) that ends the header block. */
  function HeaderEnd(body: seq<string>, i: nat): (e: nat)
    requires i >= 1
    ensures i <= e && (i <= |body| + 1 ==> e <= |body| + 1) && EndsHeaders(ReadLine(body, e))
    ensures forall j :: i <= j < e ==> !EndsHeaders(ReadLine(body, j))
    decreases |body| + 1 - i
  {
    if EndsHeaders(ReadLine(body, i)) then i else HeaderEnd(body, i + 1)
  }

  /** The headers in lines 0 .. n - 1, each continuation line joined to the
      header before it. */
  function Unfold(body: seq<string>, n: nat): (hs: seq<string>)
    requires n >= 1
    ensures |hs| >= 1
  {
    if n == 1 then [ReadLine(body, 0)]
    else
      var hs := Unfold(body, n - 1);
      var line := ReadLine(body, n - 1);
      if IsContinuation(line) then hs[..|hs| - 1] + [hs[|hs| - 1] + line] else hs + [line]
  }

  /** The unfolded header block of a body. */
  function Headers(body: seq<string>): seq<string> {
    Unfold(body, HeaderEnd(body, 1))
  }

  /** The user a sequence of headers names: the first Received: header
      decides, and a name that is empty counts as none. */
  function Decide(headers: seq<string>, search: string -> Option<string>): Option<string>
  {
    if headers == [] then None
    else match CheckHeader(headers[0], search)
      case NotReceived => Decide(headers[1..], search)
      case Unmatched => None
      case User(g) => if g != "" then Some(g) else None
  }

  /** get_auth_user: None when the body file cannot be opened. */
  function AuthUser(body: Option<seq<string>>, search: string -> Option<string>): Option<string>
  {
    match body
    case None => None
    case Some(lines) => Decide(Headers(lines), search)
  }

  /** The user a decisive check names. */
  function Named(c: Check): Option<string> {
    if c.User? && c.name != "" then Some(c.name) else None
  }

  /** Only the first Received: header counts: it decides whatever follows. */
  lemma {:induction false} FirstReceivedDecides(hs: seq<string>, k: nat, search: string -> Option<string>)
    requires k < |hs| && IsReceived(hs[k])
    requires NoneReceived(hs[..k])
    ensures Decide(hs, search) == Named(CheckHeader(hs[k], search))
  {
    if k > 0 {
      assert hs[1..][..k - 1] == hs[..k][1..];
      FirstReceivedDecides(hs[1..], k - 1, search);
    }
  }

  /** Without any Received: header nobody is named. */
  lemma {:induction false} NoReceivedNoUser(hs: seq<string>, search: string -> Option<string>)
    requires NoneReceived(hs)
    ensures Decide(hs, search) == None
  {
    if hs != [] {
      NoReceivedNoUser(hs[1..], search);
    }
  }

  /** Unfolding further only extends the last header or adds new ones. */
  lemma {:induction false} UnfoldStable(body: seq<string>, n: nat, m: nat)
    requires 1 <= n <= m
    ensures |Unfold(body, n)| <= |Unfold(body, m)|
    ensures Unfold(body, n)[..|Unfold(body, n)| - 1] <= Unfold(body, m)
    decreases m
  {
    if n < m {
      UnfoldStable(body, n, m - 1);
    }
  }

  /** Where the header block ends, once the lines before `i` are known not to end it. */
  lemma HeaderEndFrom(lines: seq<string>, i: nat)
    requires i >= 1
    requires OpenBefore(lines, i)
    ensures HeaderEnd(lines, 1) >= i
    ensures EndsHeaders(ReadLine(lines, i)) ==> HeaderEnd(lines, 1) == i
  {
    assert EndsHeaders(ReadLine(lines, HeaderEnd(lines, 1)));
  }

  lemma ConcatExtendLast(init: seq<string>, last: string, line: string)
    ensures Concat(init + [last + line]) == Concat(init + [last]) + line
  {
    ConcatSnoc(init, last);
    ConcatSnoc(init, last + line);
    assert Concat(init) + (last + line) == (Concat(init) + last) + line;
  }

  /** Unfolding joins lines and drops none: the headers spell out the lines they came from. */
  lemma {:induction false} UnfoldKeepsText(body: seq<string>, n: nat)
    requires 1 <= n <= |body|
    ensures Concat(Unfold(body, n)) == Concat(body[..n])
  {
    if n == 1 {
      assert body[..1] == [body[0]];
      assert Concat([body[0]]) == body[0] + Concat([]);
    } else {
      UnfoldKeepsText(body, n - 1);
      var hs := Unfold(body, n - 1);
      var line := body[n - 1];
      assert body[..n] == body[..n - 1] + [line];
      ConcatSnoc(body[..n - 1], line);
      if IsContinuation(line) {
        assert hs == hs[..|hs| - 1] + [hs[|hs| - 1]];
        ConcatExtendLast(hs[..|hs| - 1], hs[|hs| - 1], line);
      } else {
        ConcatSnoc(hs, line);
      }
    }
  }

  lemma {:induction false} UnfoldAgrees(a: seq<string>, b: seq<string>, n: nat)
    requires n >= 1
    requires forall j :: 0 <= j < n ==> ReadLine(a, j) == ReadLine(b, j)
    ensures Unfold(a, n) == Unfold(b, n)
  {
    if n > 1 {
      UnfoldAgrees(a, b, n - 1);
    }
  }

  lemma {:induction false} HeaderEndAgrees(a: seq<string>, b: seq<string>, i: nat, m: nat)
    requires 1 <= i <= m && EndsHeaders(ReadLine(a, m))
    requires forall j :: i <= j <= m ==> ReadLine(a, j) == ReadLine(b, j)
    ensures HeaderEnd(a, i) == HeaderEnd(b, i) <= m
    decreases m - i
  {
    if !EndsHeaders(ReadLine(a, i)) {
      HeaderEndAgrees(a, b, i + 1, m);
    }
  }

  /** Only the header block is read: what follows the blank line never
      changes the answer. */
  lemma AuthIgnoresBody(headerLines: seq<string>, rest: seq<string>, search: string -> Option<string>)
    requires headerLines != []
    ensures AuthUser(Some(headerLines + ["\n"] + rest), search) == AuthUser(Some(headerLines + ["\n"]), search)
  {
    var a, b := headerLines + ["\n"] + rest, headerLines + ["\n"];
    var m := |headerLines|;
    assert forall j :: 0 <= j <= m ==> ReadLine(a, j) == ReadLine(b, j);
    HeaderEndAgrees(a, b, 1, m);
    UnfoldAgrees(a, b, HeaderEnd(a, 1));
  }

  /** A Received: header that stays whole once unfolding passes it decides. */
  lemma ReceivedHeaderDecides(lines: seq<string>, n: nat, done: seq<string>, header: string,
                              search: string -> Option<string>)
    requires 1 <= n <= HeaderEnd(lines, 1)
    requires Unfold(lines, n)[..|Unfold(lines, n)| - 1] == done + [header]
    requires NoneReceived(done)
    requires IsReceived(header)
    ensures AuthUser(Some(lines), search) == Named(CheckHeader(header, search))
  {
    var hs := Headers(lines);
    UnfoldStable(lines, n, HeaderEnd(lines, 1));
    assert hs[|done|] == header;
    assert hs[..|done|] == done;
    FirstReceivedDecides(hs, |done|, search);
  }

  /** The header read when the block ends decides, unless an earlier one did. */
  lemma LastHeaderDecides(lines: seq<string>, i: nat, done: seq<string>, header: string,
                          search: string -> Option<string>)
    requires i >= 1 && OpenBefore(lines, i) && EndsHeaders(ReadLine(lines, i))
    requires Unfold(lines, i) == done + [header] && NoneReceived(done)
    ensures AuthUser(Some(lines), search) == Named(CheckHeader(header, search))
  {
    HeaderEndFrom(lines, i);
    if !IsReceived(header) {
      NoReceivedNoUser(done + [header], search);
    } else {
      assert (done + [header])[..|done|] == done;
      FirstReceivedDecides(done + [header], |done|, search);
    }
  }

  /** A line that does not end the header block either extends the last
      header or starts a new one; the header it closes joins the finished ones. */
  lemma UnfoldStep(lines: seq<string>, i: nat, done: seq<string>, header: string)
    requires i >= 1 && Unfold(lines, i) == done + [header]
    requires OpenBefore(lines, i) && NoneReceived(done) && !EndsHeaders(ReadLine(lines, i))
    ensures i < |lines| && OpenBefore(lines, i + 1)
    ensures IsContinuation(ReadLine(lines, i)) ==> Unfold(lines, i + 1) == done + [header + ReadLine(lines, i)]
    ensures !IsContinuation(ReadLine(lines, i)) ==> Unfold(lines, i + 1) == (done + [header]) + [ReadLine(lines, i)]
    ensures !IsReceived(header) ==> NoneReceived(done + [header])
  {
    assert (done + [header])[..|done|] == done;
  }

  /** get_auth_user, reading the header block line by line. */
  method GetAuthUser(body: Option<seq<string>>, search: string -> Option<string>) returns (user: Option<string>)
    ensures user == AuthUser(body, search)
  {
    if body.None? {
      return None;
    }
    var lines := body.value;
    var header := ReadLine(lines, 0);
    ghost var done: seq<string> := [];
    var auth: Check;
    var i := 1;
    while true
      invariant 1 <= i <= |lines| + 1
      invariant Unfold(lines, i) == done + [header]
      invariant OpenBefore(lines, i)
      invariant NoneReceived(done)
      decreases |lines| + 1 - i
    {
      var line := ReadLine(lines, i);
      if EndsHeaders(line) {
        auth := CheckHeader(header, search);
        LastHeaderDecides(lines, i, done, header, search);
        break;
      }
      UnfoldStep(lines, i, done, header);
      if IsContinuation(line) {
        header := header + line;
      } else {
        auth := CheckHeader(header, search);
        if !auth.NotReceived? {
          HeaderEndFrom(lines, i + 1);
          ReceivedHeaderDecides(lines, i + 1, done, header, search);
          break;
        }
        done := done + [header];
        header := line;
      }
      i := i + 1;
    }
    return Named(auth);
  }
}
