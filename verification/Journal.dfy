/**
 The persistent form of the clock and tombstone stores: a snapshot that is replaced
 atomically, and a journal that is only appended to or truncated. This module says
 what the two files mean together and follows them through every sub-step of a
 call, a compaction and an open, with a crash allowed anywhere.
 */
module Journal {
  import opened Basics
  import opened Octets
  import opened TextEncoding
  import Runs

  const COMPACT_MIN_OPS := 1024

  /** A journal line, or the bytes that are left of one whose writing was cut short. */
  datatype Line<V> = Put(key: string, value: V) | Rm(key: string) | Torn(bytes: Bytes)

  datatype Disk<V> = Disk(snapshot: map<string, V>, journal: seq<Line<V>>)

  ghost predicate Whole<V>(lines: seq<Line<V>>) {
    forall l | l in lines :: !l.Torn?
  }

  // ---------------------------------------------------------------------
  // The text of a line
  // ---------------------------------------------------------------------

  function HexDigit(n: nat): char
    requires n < 16
  {
    "0123456789abcdef"[n]
  }

  /** Quotes, backslashes and control characters are escaped; everything else is written as it is. */
  function Escaped(c: char): string {
    if c == '"' then "\\\""
    else if c == '\\' then "\\\\"
    else if c == '\U{8}' then "\\b"
    else if c == '\U{9}' then "\\t"
    else if c == '\U{A}' then "\\n"
    else if c == '\U{C}' then "\\f"
    else if c == '\U{D}' then "\\r"
    else if c < ' ' then "\\u00" + [HexDigit(c as int / 16), HexDigit(c as int % 16)]
    else [c]
  }

  function EscapedText(s: string): string {
    if s == "" then "" else Escaped(s[0]) + EscapedText(s[1..])
  }

  function Quoted(s: string): string { "\"" + EscapedText(s) + "\"" }

  /** The object a line consists of, before its newline; `text` prints a value. */
  function Record<V>(line: Line<V>, text: V -> string): string
    requires !line.Torn?
  {
    match line
    case Put(key, value) => "{\"op\":\"put\",\"k\":" + Quoted(key) + ",\"v\":" + text(value) + "}"
    case Rm(key) => "{\"op\":\"rm\",\"k\":" + Quoted(key) + "}"
  }

  // A reader of quoted text: what stands for one character, and how much of the text that takes.

  function HexValue(c: char): nat {
    if '0' <= c <= '9' then c as int - '0' as int else if 'a' <= c <= 'f' then c as int - 'a' as int + 10 else 0
  }

  function FirstUnescaped(text: string): Option<(char, nat)> {
    if text == "" || text[0] < ' ' then None
    else if text[0] != '\\' then Some((text[0], 1))
    else if |text| < 2 then None
    else if text[1] == '"' || text[1] == '\\' then Some((text[1], 2))
    else if text[1] == 'b' then Some(('\U{8}', 2))
    else if text[1] == 't' then Some(('\U{9}', 2))
    else if text[1] == 'n' then Some(('\U{A}', 2))
    else if text[1] == 'f' then Some(('\U{C}', 2))
    else if text[1] == 'r' then Some(('\U{D}', 2))
    else if text[1] == 'u' && |text| >= 6 && text[2] == '0' && text[3] == '0' then
      Some(((HexValue(text[4]) * 16 + HexValue(text[5])) as char, 6))
    else None
  }

  /** The text up to the closing quote, and what comes after it. */
  function Unquoted(text: string): Option<(string, string)> {
    if text != "" && text[0] == '"' then Some(("", text[1..]))
    else
      match FirstUnescaped(text)
      case None => None
      case Some((c, width)) =>
        match Unquoted(text[width..])
        case None => None
        case Some((more, rest)) => Some(([c] + more, rest))
  }

  lemma EscapedReads(c: char, rest: string)
    ensures FirstUnescaped(Escaped(c) + rest) == Some((c, |Escaped(c)|)) && Escaped(c)[0] != '"'
    ensures (Escaped(c) + rest)[|Escaped(c)|..] == rest
  {
    if Escaped(c) != [c] && c < ' ' && |Escaped(c)| > 2 {
      var high, low := c as int / 16, c as int % 16;
      assert Escaped(c) == ['\\', 'u', '0', '0', HexDigit(high), HexDigit(low)];
      HexReads(high);
      HexReads(low);
    }
  }

  lemma HexReads(n: nat)
    requires n < 16
    ensures HexValue(HexDigit(n)) == n
  {
  }

  /** A quoted text reads back as itself, whatever follows it. */
  lemma {:induction false} QuotedReadsBack(s: string, rest: string)
    ensures Unquoted(EscapedText(s) + "\"" + rest) == Some((s, rest))
  {
    if s == "" {
      assert (EscapedText(s) + "\"" + rest)[1..] == rest;
    } else {
      var more := EscapedText(s[1..]) + "\"" + rest;
      QuotedReadsBack(s[1..], rest);
      EscapedReads(s[0], more);
      assert EscapedText(s) + "\"" + rest == Escaped(s[0]) + more;
      assert s == [s[0]] + s[1..];
    }
  }

  lemma {:induction false} EscapedHasNoControls(s: string)
    ensures forall c | c in EscapedText(s) :: c >= ' '
  {
    if s != "" {
      EscapedHasNoControls(s[1..]);
      assert forall c | c in Escaped(s[0]) :: c >= ' ';
    }
  }

  /** A record has no newline unless its value is printed with one, so one line holds one record. */
  lemma RecordIsOneLine<V>(line: Line<V>, text: V -> string)
    requires !line.Torn? && (line.Put? ==> '\n' !in text(line.value))
    ensures '\n' !in Record(line, text)
  {
    EscapedHasNoControls(line.key);
  }

  function BeforeKey<V>(line: Line<V>): string
    requires !line.Torn?
  {
    if line.Put? then "{\"op\":\"put\",\"k\":\"" else "{\"op\":\"rm\",\"k\":\""
  }

  function AfterKey<V>(line: Line<V>, text: V -> string): string
    requires !line.Torn?
  {
    if line.Put? then ",\"v\":" + text(line.value) + "}" else "}"
  }

  lemma RecordParts<V>(line: Line<V>, text: V -> string)
    requires !line.Torn?
    ensures Record(line, text) == BeforeKey(line) + (EscapedText(line.key) + "\"" + AfterKey(line, text))
  {
    var key, front := EscapedText(line.key), if line.Put? then "{\"op\":\"put\",\"k\":" else "{\"op\":\"rm\",\"k\":";
    assert BeforeKey(line) == front + "\"";
    assert Record(line, text) == front + Quoted(line.key) + AfterKey(line, text);
    Regroup(front, key, AfterKey(line, text));
  }

  lemma Regroup(front: string, key: string, back: string)
    ensures front + ("\"" + key + "\"") + back == (front + "\"") + (key + "\"" + back)
  {
  }

  /** What is behind the front of a record reads as its key and what follows it. */
  lemma KeyReads<V>(line: Line<V>, text: V -> string)
    requires !line.Torn? && |BeforeKey(line)| <= |Record(line, text)|
    ensures Unquoted(Record(line, text)[|BeforeKey(line)|..]) == Some((line.key, AfterKey(line, text)))
  {
    var tail := EscapedText(line.key) + "\"" + AfterKey(line, text);
    QuotedReadsBack(line.key, AfterKey(line, text));
    RecordParts(line, text);
    assert Record(line, text)[|BeforeKey(line)|..] == tail;
  }

  lemma SameOp<V>(a: Line<V>, b: Line<V>, text: V -> string)
    requires !a.Torn? && !b.Torn? && Record(a, text) == Record(b, text)
    ensures a.Put? <==> b.Put?
    ensures |BeforeKey(a)| <= |Record(a, text)|
  {
    RecordParts(a, text);
    RecordParts(b, text);
    assert Record(a, text)[7] == BeforeKey(a)[7] && Record(b, text)[7] == BeforeKey(b)[7];
  }

  /** A record tells the operation, its key, and its value if the printed form does. */
  lemma RecordsDiffer<V>(a: Line<V>, b: Line<V>, text: V -> string)
    requires !a.Torn? && !b.Torn? && Record(a, text) == Record(b, text)
    requires a.Put? && b.Put? && text(a.value) == text(b.value) ==> a.value == b.value
    ensures a == b
  {
    SameOp(a, b, text);
    KeyReads(a, text);
    KeyReads(b, text);
    if a.Put? {
      var x, y := AfterKey(a, text), AfterKey(b, text);
      assert x[5..|x| - 1] == text(a.value) && y[5..|y| - 1] == text(b.value);
    }
  }

  function LineBytes<V>(line: Line<V>, text: V -> string): Bytes {
    if line.Torn? then line.bytes else Utf8(WithNewline(Record(line, text)))
  }

  function JournalBytes<V>(lines: seq<Line<V>>, text: V -> string): Bytes {
    if lines == [] then [] else LineBytes(lines[0], text) + JournalBytes(lines[1..], text)
  }

  /** A line's characters are all single bytes when those of its key and its value are. */
  predicate Plain<V>(line: Line<V>, text: V -> string) {
    !line.Torn? && SingleByte(line.key) && (line.Put? ==> SingleByte(text(line.value)))
  }

  lemma EscapedWidth(c: char)
    ensures SingleByte(Escaped(c)) <==> SingleByte([c])
  {
    assert c as int < 0x80 || Escaped(c) == [c];
  }

  lemma {:induction false} EscapingKeepsWidth(s: string)
    ensures SingleByte(EscapedText(s)) <==> SingleByte(s)
  {
    if s != "" {
      EscapingKeepsWidth(s[1..]);
      EscapedStep(s[0], s[1..]);
      assert s == [s[0]] + s[1..];
    }
  }

  lemma EscapedStep(c: char, rest: string)
    requires SingleByte(EscapedText(rest)) <==> SingleByte(rest)
    ensures SingleByte(Escaped(c) + EscapedText(rest)) <==> SingleByte([c] + rest)
  {
    EscapedWidth(c);
    SingleByteParts(Escaped(c), EscapedText(rest));
    SingleByteParts([c], rest);
  }

  lemma SingleByteParts(a: string, b: string)
    ensures SingleByte(a + b) <==> SingleByte(a) && SingleByte(b)
  {
    assert forall c :: c in a + b <==> c in a || c in b;
  }

  lemma PlainExactly<V>(line: Line<V>, text: V -> string)
    requires !line.Torn?
    ensures SingleByte(Record(line, text)) <==> Plain(line, text)
  {
    var key := EscapedText(line.key);
    EscapingKeepsWidth(line.key);
    SingleByteParts("\"", key);
    SingleByteParts("\"" + key, "\"");
    match line
    case Put(_, value) =>
      SingleByteParts("{\"op\":\"put\",\"k\":", Quoted(line.key));
      SingleByteParts("{\"op\":\"put\",\"k\":" + Quoted(line.key), ",\"v\":");
      SingleByteParts("{\"op\":\"put\",\"k\":" + Quoted(line.key) + ",\"v\":", text(value));
      SingleByteParts("{\"op\":\"put\",\"k\":" + Quoted(line.key) + ",\"v\":" + text(value), "}");
    case Rm(_) =>
      SingleByteParts("{\"op\":\"rm\",\"k\":", Quoted(line.key));
      SingleByteParts("{\"op\":\"rm\",\"k\":" + Quoted(line.key), "}");
  }

  /** What is left of a torn line is text. */
  ghost predicate Readable<V>(lines: seq<Line<V>>) {
    forall l | l in lines :: l.Torn? ==> IsText(l.bytes)
  }

  /** Only the last line may be torn. */
  predicate TornLast<V>(lines: seq<Line<V>>) {
    forall i | 0 <= i < |lines| - 1 :: !lines[i].Torn?
  }

  /** Reading the whole journal as text succeeds exactly when what is left of its last line is text. */
  lemma {:induction false} ReadableExactly<V>(lines: seq<Line<V>>, text: V -> string)
    requires TornLast(lines)
    ensures IsText(JournalBytes(lines, text)) <==> Readable(lines)
  {
    if lines != [] {
      var rest := lines[1..];
      assert lines == [lines[0]] + rest;
      if lines[0].Torn? {
        assert rest == [] && JournalBytes(lines, text) == lines[0].bytes;
      } else {
        forall i | 0 <= i < |rest| - 1 ensures !rest[i].Torn? {
          assert rest[i] == lines[i + 1];
        }
        ReadableExactly(rest, text);
        TextInFront(WithNewline(Record(lines[0], text)), JournalBytes(rest, text));
      }
    }
  }

  // ---------------------------------------------------------------------
  // The map behind the lines
  // ---------------------------------------------------------------------

  function Apply<V>(m: map<string, V>, op: Line<V>): map<string, V>
    requires !op.Torn?
  {
    match op
    case Put(k, v) => m[k := v]
    case Rm(k) => m - {k}
  }

  /** Replay stops at the first torn line. */
  function Replay<V>(m: map<string, V>, lines: seq<Line<V>>): map<string, V>
    decreases |lines|
  {
    if lines == [] || lines[0].Torn? then m
    else Replay(Apply(m, lines[0]), lines[1..])
  }

  function Contents<V>(disk: Disk<V>): map<string, V> {
    Replay(disk.snapshot, disk.journal)
  }

  // ---------------------------------------------------------------------
  // Replay
  // ---------------------------------------------------------------------

  lemma {:induction false} ReplayConcat<V>(m: map<string, V>, a: seq<Line<V>>, b: seq<Line<V>>)
    requires Whole(a)
    ensures Replay(m, a + b) == Replay(Replay(m, a), b)
    decreases |a|
  {
    if a == [] {
      assert a + b == b;
    } else {
      assert (a + b)[1..] == a[1..] + b;
      assert a[0] in a;
      assert forall l | l in a[1..] :: l in a;
      ReplayConcat(Apply(m, a[0]), a[1..], b);
    }
  }

  ghost predicate Mentions<V>(lines: seq<Line<V>>, key: string) {
    exists l | l in lines :: !l.Torn? && l.key == key
  }

  ghost predicate AgreeAt<V>(m: map<string, V>, n: map<string, V>, key: string) {
    (key in m <==> key in n) && (key in m ==> m[key] == n[key])
  }

  ghost predicate AgreeOutside<V>(m: map<string, V>, n: map<string, V>, lines: seq<Line<V>>) {
    forall k :: Mentions(lines, k) || AgreeAt(m, n, k)
  }

  lemma MentionsTail<V>(lines: seq<Line<V>>, key: string)
    requires lines != [] && !lines[0].Torn?
    ensures Mentions(lines, key) <==> key == lines[0].key || Mentions(lines[1..], key)
  {
    assert lines == [lines[0]] + lines[1..];
  }

  /** A replay only changes the keys it mentions. */
  lemma {:induction false} ReplayKeepsOthers<V>(m: map<string, V>, lines: seq<Line<V>>)
    ensures AgreeOutside(m, Replay(m, lines), lines)
    decreases |lines|
  {
    if lines != [] && !lines[0].Torn? {
      ReplayKeepsOthers(Apply(m, lines[0]), lines[1..]);
      forall k ensures Mentions(lines, k) || AgreeAt(m, Replay(m, lines), k) {
        MentionsTail(lines, k);
      }
    }
  }

  /** The last operation on a key decides it, so only unmentioned keys depend on the start. */
  lemma {:induction false} ReplayForgetsStart<V>(m: map<string, V>, n: map<string, V>, lines: seq<Line<V>>)
    requires Whole(lines) && AgreeOutside(m, n, lines)
    ensures Replay(m, lines) == Replay(n, lines)
    decreases |lines|
  {
    if lines == [] {
      forall k ensures AgreeAt(m, n, k) {
        assert !Mentions(lines, k);
      }
      assert forall k | k in m :: AgreeAt(m, n, k);
      assert forall k | k in n :: AgreeAt(m, n, k);
      assert m == n;
    } else {
      assert lines[0] in lines;
      assert forall l | l in lines[1..] :: l in lines;
      forall k ensures Mentions(lines[1..], k) || AgreeAt(Apply(m, lines[0]), Apply(n, lines[0]), k) {
        MentionsTail(lines, k);
      }
      ReplayForgetsStart(Apply(m, lines[0]), Apply(n, lines[0]), lines[1..]);
    }
  }

  /** Replaying a journal over its own result changes nothing: a crash before the truncation is harmless. */
  lemma ReplayIdempotent<V>(m: map<string, V>, lines: seq<Line<V>>)
    ensures Replay(Replay(m, lines), lines) == Replay(m, lines)
  {
    var whole := WholePart(lines);
    WholePartReplays(m, lines);
    WholePartReplays(Replay(m, lines), lines);
    ReplayKeepsOthers(m, whole);
    forall k ensures Mentions(whole, k) || AgreeAt(Replay(m, whole), m, k) {
      assert Mentions(whole, k) || AgreeAt(m, Replay(m, whole), k);
    }
    ReplayForgetsStart(Replay(m, whole), m, whole);
  }

  /** The lines before the first torn one. */
  function WholePart<V>(lines: seq<Line<V>>): (whole: seq<Line<V>>)
    ensures Whole(whole)
    decreases |lines|
  {
    if lines == [] || lines[0].Torn? then [] else [lines[0]] + WholePart(lines[1..])
  }

  lemma {:induction false} WholePartReplays<V>(m: map<string, V>, lines: seq<Line<V>>)
    ensures Replay(m, WholePart(lines)) == Replay(m, lines)
    decreases |lines|
  {
    if lines != [] && !lines[0].Torn? {
      WholePartReplays(Apply(m, lines[0]), lines[1..]);
      assert WholePart(lines)[1..] == WholePart(lines[1..]);
    }
  }

  lemma ReplaySnoc<V>(m: map<string, V>, lines: seq<Line<V>>, line: Line<V>)
    requires Whole(lines)
    ensures Replay(m, lines + [line]) == if line.Torn? then Replay(m, lines) else Apply(Replay(m, lines), line)
  {
    ReplayConcat(m, lines, [line]);
    if !line.Torn? {
      assert [line][1..] == [];
      assert Replay(Apply(Replay(m, lines), line), []) == Apply(Replay(m, lines), line);
    }
  }

  // ---------------------------------------------------------------------
  // The machine
  // ---------------------------------------------------------------------

  /** Where the process is; `pending` counts journal lines since the last truncation. */
  datatype Phase<V> =
    | Down
    | Up(live: map<string, V>, pending: nat)
    | Appending(live: map<string, V>, pending: nat, rest: seq<Line<V>>)
    | Compacting(live: map<string, V>)
    | Truncating(live: map<string, V>)

  /**
   `log` is every operation journaled so far that no crash has lost, `durable` how
   many of them reached the file, `completed` how many belong to calls that
   returned. `appended` and `rewritten` count journal lines written and map entries
   rewritten by compactions that an append triggered. `text` prints values.
   */
  datatype System<!V> = System(
    disk: Disk<V>, phase: Phase<V>,
    base: map<string, V>, log: seq<Line<V>>, durable: nat, completed: nat,
    appended: nat, rewritten: nat, text: V -> string)

  /** A crash leaves the first `cut` bytes of the line being written. */
  datatype Event<V> =
    | BeginCall(ops: seq<Line<V>>)
    | WriteLine
    | EndWrite
    | ReplaceSnapshot
    | Truncate
    | Crash(cut: nat)
    | Open

  function Threshold<V>(live: map<string, V>): nat {
    if COMPACT_MIN_OPS < |live| then |live| else COMPACT_MIN_OPS
  }

  ghost predicate Enabled<V>(s: System<V>, e: Event<V>) {
    match e
    case BeginCall(ops) => s.phase.Up? && ops != [] && Whole(ops)
    case WriteLine => s.phase.Appending? && s.phase.rest != []
    case EndWrite => s.phase.Appending? && s.phase.rest == []
    case ReplaceSnapshot => s.phase.Compacting?
    case Truncate => s.phase.Truncating?
    case Crash(cut) =>
      && !s.phase.Down?
      && (cut > 0 ==>
            && s.phase.Appending? && s.phase.rest != [] && !s.phase.rest[0].Torn?
            && cut < |LineBytes(s.phase.rest[0], s.text)|)
    case Open => s.phase.Down? && IsText(JournalBytes(s.disk.journal, s.text)) && s.durable <= |s.log|
  }

  /** Such a line reads like a whole one; anything shorter lacks its closing brace. */
  predicate OnlyNewlineMissing<V>(s: System<V>, cut: nat) {
    s.phase.Appending? && s.phase.rest != [] && 0 < cut == |LineBytes(s.phase.rest[0], s.text)| - 1
  }

  ghost function Next<V>(s: System<V>, e: Event<V>): System<V>
    requires Enabled(s, e)
  {
    match e
    case BeginCall(ops) =>
      s.(phase := Appending(Replay(s.phase.live, ops), s.phase.pending + |ops|, ops), log := s.log + ops)
    case WriteLine =>
      s.(disk := s.disk.(journal := s.disk.journal + [s.phase.rest[0]]),
         phase := s.phase.(rest := s.phase.rest[1..]),
         durable := s.durable + 1, appended := s.appended + 1)
    case EndWrite =>
      if s.phase.pending >= Threshold(s.phase.live) then
        s.(phase := Compacting(s.phase.live), rewritten := s.rewritten + |s.phase.live|)
      else
        s.(phase := Up(s.phase.live, s.phase.pending), completed := |s.log|)
    case ReplaceSnapshot =>
      s.(disk := s.disk.(snapshot := s.phase.live), phase := Truncating(s.phase.live))
    case Truncate =>
      s.(disk := s.disk.(journal := []), phase := Up(s.phase.live, 0), completed := |s.log|)
    case Crash(cut) =>
      if cut == 0 then s.(phase := Down)
      else if OnlyNewlineMissing(s, cut) then
        s.(disk := s.disk.(journal := s.disk.journal + [s.phase.rest[0]]), phase := Down,
           durable := s.durable + 1, appended := s.appended + 1)
      else
        var left := LineBytes(s.phase.rest[0], s.text)[..cut];
        s.(disk := s.disk.(journal := s.disk.journal + [Torn(left)]), phase := Down)
    case Open =>
      var live := Contents(s.disk);
      s.(phase := if s.disk.journal != [] then Compacting(live) else Up(live, 0),
         log := s.log[..s.durable],
         completed := if s.disk.journal != [] then s.completed else s.durable)
  }

  ghost function Step<V>(s: System<V>, e: Event<V>): Option<System<V>> {
    if Enabled(s, e) then Some(Next(s, e)) else None
  }

  ghost predicate Leads<V>(s: System<V>, events: seq<Event<V>>, t: System<V>) {
    Runs.Leads(Step<V>, s, events, t)
  }

  function Fresh<V>(base: map<string, V>, text: V -> string): System<V> {
    System(Disk(base, []), Down, base, [], 0, 0, 0, 0, text)
  }

  // ---------------------------------------------------------------------
  // The invariant
  // ---------------------------------------------------------------------

  ghost predicate Recoverable<V>(s: System<V>) {
    && s.completed <= s.durable <= |s.log| && Whole(s.log) && TornLast(s.disk.journal)
    && Contents(s.disk) == Replay(s.base, s.log[..s.durable])
  }

  ghost predicate PhaseOk<V>(s: System<V>) {
    match s.phase
    case Down => true
    case Up(live, pending) =>
      && Whole(s.disk.journal) && live == Replay(s.base, s.log)
      && s.durable == s.completed == |s.log|
      && pending == |s.disk.journal| && pending < Threshold(live)
    case Appending(live, pending, rest) =>
      && Whole(s.disk.journal) && live == Replay(s.base, s.log)
      && |rest| <= |s.log| && s.durable == |s.log| - |rest| && rest == s.log[s.durable..]
      && pending == |s.disk.journal| + |rest|
    case Compacting(live) =>
      live == Replay(s.base, s.log) && s.durable == |s.log|
    case Truncating(live) =>
      live == Replay(s.base, s.log) && s.durable == |s.log| && s.disk.snapshot == live
  }

  /** Compactions are paid for by the lines appended before them. */
  ghost predicate Paid<V>(s: System<V>) {
    match s.phase
    case Up(_, pending) => s.rewritten + pending <= s.appended
    case Appending(_, pending, rest) => |rest| <= pending && s.rewritten + pending - |rest| <= s.appended
    case _ => s.rewritten <= s.appended
  }

  ghost predicate Inv<V>(s: System<V>) {
    Recoverable(s) && PhaseOk(s) && Paid(s)
  }

  lemma FreshOk<V>(base: map<string, V>, text: V -> string)
    ensures Inv(Fresh(base, text))
  {
  }

  lemma BeginCallOk<V>(s: System<V>, ops: seq<Line<V>>)
    requires Inv(s) && Enabled(s, BeginCall(ops))
    ensures Inv(Next(s, BeginCall(ops)))
  {
    var s' := Next(s, BeginCall(ops));
    ReplayConcat(s.base, s.log, ops);
    assert s'.log[..s'.durable] == s.log[..s.durable];
    assert s'.log[s'.durable..] == ops;
  }

  lemma WriteLineOk<V>(s: System<V>)
    requires Inv(s) && Enabled(s, WriteLine)
    ensures Inv(Next(s, WriteLine))
  {
    var s' := Next(s, WriteLine);
    var line := s.phase.rest[0];
    assert line == s.log[s.durable] && line in s.log;
    assert s'.log[..s'.durable] == s.log[..s.durable] + [line];
    assert forall l | l in s.log[..s.durable] :: l in s.log;
    ReplaySnoc(s.disk.snapshot, s.disk.journal, line);
    ReplaySnoc(s.base, s.log[..s.durable], line);
    assert s'.phase.rest == s'.log[s'.durable..];
  }

  lemma EndWriteOk<V>(s: System<V>)
    requires Inv(s) && Enabled(s, EndWrite)
    ensures Inv(Next(s, EndWrite))
  {
    assert s.log[..|s.log|] == s.log;
  }

  lemma ReplaceSnapshotOk<V>(s: System<V>)
    requires Inv(s) && Enabled(s, ReplaceSnapshot)
    ensures Inv(Next(s, ReplaceSnapshot))
  {
    assert s.log[..|s.log|] == s.log;
    ReplayIdempotent(s.disk.snapshot, s.disk.journal);
  }

  lemma TruncateOk<V>(s: System<V>)
    requires Inv(s) && Enabled(s, Truncate)
    ensures Inv(Next(s, Truncate))
  {
    assert s.log[..|s.log|] == s.log;
  }

  lemma CrashOk<V>(s: System<V>, cut: nat)
    requires Inv(s) && Enabled(s, Crash(cut))
    ensures Inv(Next(s, Crash(cut)))
  {
    if OnlyNewlineMissing(s, cut) {
      WriteLineOk(s);
    } else if cut > 0 {
      ReplaySnoc(s.disk.snapshot, s.disk.journal, Torn(LineBytes(s.phase.rest[0], s.text)[..cut]));
    }
  }

  lemma OpenOk<V>(s: System<V>)
    requires Inv(s) && Enabled(s, Open)
    ensures Inv(Next(s, Open))
  {
    var s' := Next(s, Open);
    assert s'.log[..s'.durable] == s.log[..s.durable];
    assert forall l | l in s'.log :: l in s.log;
  }

  lemma StepOk<V>(s: System<V>, e: Event<V>)
    requires Inv(s) && Enabled(s, e)
    ensures Inv(Next(s, e))
  {
    match e
    case BeginCall(ops) => BeginCallOk(s, ops);
    case WriteLine => WriteLineOk(s);
    case EndWrite => EndWriteOk(s);
    case ReplaceSnapshot => ReplaceSnapshotOk(s);
    case Truncate => TruncateOk(s);
    case Crash(cut) => CrashOk(s, cut);
    case Open => OpenOk(s);
  }

  lemma {:induction false} LeadsOk<V>(s: System<V>, events: seq<Event<V>>, t: System<V>)
    requires Inv(s) && Leads(s, events, t)
    ensures Inv(t)
    decreases |events|
  {
    if events != [] {
      StepOk(s, events[0]);
      LeadsOk(Next(s, events[0]), events[1..], t);
    }
  }

  lemma LeadsJoin<V>(s: System<V>, first: seq<Event<V>>, t: System<V>, second: seq<Event<V>>, u: System<V>)
    requires Leads(s, first, t) && Leads(t, second, u)
    ensures Leads(s, first + second, u)
  {
    Runs.Join(Step<V>, s, first, t, second, u);
  }

  lemma LeadsOne<V>(s: System<V>, e: Event<V>, t: System<V>)
    requires Enabled(s, e) && t == Next(s, e)
    ensures Leads(s, [e], t)
  {
    Runs.One(Step<V>, s, e);
  }

  lemma LeadsOneMore<V>(s: System<V>, events: seq<Event<V>>, t: System<V>, e: Event<V>, u: System<V>)
    requires Leads(s, events, t) && Enabled(t, e) && u == Next(t, e)
    ensures Leads(s, events + [e], u)
  {
    LeadsOne(t, e, u);
    LeadsJoin(s, events, t, [e], u);
  }

  // ---------------------------------------------------------------------
  // In the middle of a call
  // ---------------------------------------------------------------------

  /** The machine `n` lines into an append. */
  ghost function Written<V>(s: System<V>, lines: seq<Line<V>>, n: nat): System<V>
    requires s.phase.Up? && n <= |lines|
  {
    s.(disk := s.disk.(journal := s.disk.journal + lines[..n]),
       phase := Appending(Replay(s.phase.live, lines), s.phase.pending + |lines|, lines[n..]),
       log := s.log + lines, durable := s.durable + n, appended := s.appended + n)
  }

  lemma WrittenNone<V>(s: System<V>, lines: seq<Line<V>>)
    requires s.phase.Up? && Whole(lines) && lines != []
    ensures Next(s, BeginCall(lines)) == Written(s, lines, 0)
  {
    assert s.disk.journal + lines[..0] == s.disk.journal && lines[0..] == lines;
  }

  lemma WrittenOneMore<V>(s: System<V>, lines: seq<Line<V>>, n: nat)
    requires s.phase.Up? && n < |lines|
    ensures Enabled(Written(s, lines, n), WriteLine)
    ensures Next(Written(s, lines, n), WriteLine) == Written(s, lines, n + 1)
  {
    assert lines[..n + 1] == lines[..n] + [lines[n]];
    assert s.disk.journal + lines[..n] + [lines[n]] == s.disk.journal + lines[..n + 1];
    assert lines[n..][1..] == lines[n + 1..];
  }

  /** The last line is written: the lines are counted, and a compaction follows when there are enough. */
  lemma WrittenEnds<V>(s: System<V>, lines: seq<Line<V>>)
    requires s.phase.Up?
    ensures var w := Written(s, lines, |lines|);
            var pending, live := s.phase.pending + |lines|, Replay(s.phase.live, lines);
            && Enabled(w, EndWrite)
            && Next(w, EndWrite).disk == w.disk && Next(w, EndWrite).log == s.log + lines
            && Next(w, EndWrite).phase == if pending >= Threshold(live) then Compacting(live) else Up(live, pending)
  {
  }

  lemma WrittenFirst<V>(s: System<V>, lines: seq<Line<V>>)
    requires Inv(s) && s.phase.Up? && Whole(lines) && lines != []
    ensures Inv(Written(s, lines, 0)) && Leads(s, [BeginCall(lines)], Written(s, lines, 0))
  {
    WrittenNone(s, lines);
    BeginCallOk(s, lines);
    LeadsOne(s, BeginCall(lines), Written(s, lines, 0));
  }

  lemma WrittenNext<V>(s: System<V>, lines: seq<Line<V>>, n: nat, before: seq<Event<V>>)
    requires s.phase.Up? && 0 < n <= |lines|
    requires Inv(Written(s, lines, n - 1)) && Leads(s, before, Written(s, lines, n - 1))
    ensures Inv(Written(s, lines, n)) && Leads(s, before + [WriteLine], Written(s, lines, n))
  {
    WrittenOneMore(s, lines, n - 1);
    WriteLineOk(Written(s, lines, n - 1));
    LeadsOneMore(s, before, Written(s, lines, n - 1), WriteLine, Written(s, lines, n));
  }

  /** A run of the machine leads into the middle of the call. */
  lemma {:induction false} WrittenIsReached<V>(s: System<V>, lines: seq<Line<V>>, n: nat)
    returns (events: seq<Event<V>>)
    requires Inv(s) && s.phase.Up? && Whole(lines) && lines != [] && n <= |lines|
    ensures Inv(Written(s, lines, n)) && Leads(s, events, Written(s, lines, n))
    decreases n
  {
    if n == 0 {
      WrittenFirst(s, lines);
      events := [BeginCall(lines)];
    } else {
      var before := WrittenIsReached(s, lines, n - 1);
      WrittenNext(s, lines, n, before);
      events := before + [WriteLine];
    }
  }

  /** `n` whole lines of the call are written, and `cut` bytes of the next, but not all of it. */
  ghost predicate CutAt<V>(s: System<V>, ops: seq<Line<V>>, n: nat, cut: nat) {
    n <= |ops| && (cut > 0 ==> n < |ops| && cut < |LineBytes(ops[n], s.text)|)
  }

  /** What the cut line leaves in the journal: nothing, the line without its newline, or a torn line. */
  ghost function Left<V>(s: System<V>, ops: seq<Line<V>>, n: nat, cut: nat): (left: seq<Line<V>>)
    requires CutAt(s, ops, n, cut)
  {
    if cut == 0 then []
    else
      var bytes := LineBytes(ops[n], s.text);
      if cut == |bytes| - 1 then [ops[n]] else [Torn(bytes[..cut])]
  }

  /** The lines of the call that a crash leaves readable: one without its newline counts. */
  ghost function Survived<V>(s: System<V>, ops: seq<Line<V>>, n: nat, cut: nat): (k: nat)
    requires CutAt(s, ops, n, cut)
    ensures n <= k <= |ops|
  {
    if cut > 0 && cut == |LineBytes(ops[n], s.text)| - 1 then n + 1 else n
  }

  /** The machine after a crash `n` lines and `cut` bytes into a call. */
  ghost function CrashedIn<V>(s: System<V>, ops: seq<Line<V>>, n: nat, cut: nat): System<V>
    requires s.phase.Up? && Whole(ops) && CutAt(s, ops, n, cut)
  {
    assert n < |ops| ==> ops[n] in ops && ops[n..][0] == ops[n];
    Next(Written(s, ops, n), Crash(cut))
  }

  lemma CrashedInIs<V>(s: System<V>, ops: seq<Line<V>>, n: nat, cut: nat)
    requires s.phase.Up? && Whole(ops) && CutAt(s, ops, n, cut)
    ensures var u := CrashedIn(s, ops, n, cut);
            && u.phase == Down && u.text == s.text && u.base == s.base
            && u.disk == Disk(s.disk.snapshot, s.disk.journal + ops[..n] + Left(s, ops, n, cut))
            && u.log == s.log + ops && u.durable == s.durable + Survived(s, ops, n, cut)
  {
  }

  // ---------------------------------------------------------------------
  // Results
  // ---------------------------------------------------------------------

  /**
   At every point of every run, with any number of crashes behind it, the two files
   stand for the map of some prefix of the journaled operations that includes every
   completed call; that is the map the next open starts from.
   */
  lemma CrashRecovery<V>(base: map<string, V>, text: V -> string, events: seq<Event<V>>, s: System<V>)
    requires Leads(Fresh(base, text), events, s)
    ensures exists n :: s.completed <= n <= |s.log| && Contents(s.disk) == Replay(base, s.log[..n])
    ensures Enabled(s, Open) ==> Next(s, Open).phase.live == Contents(s.disk)
    ensures s.phase.Up? ==> s.phase.live == Replay(base, s.log) == Contents(s.disk)
  {
    FreshOk(base, text);
    LeadsOk(Fresh(base, text), events, s);
    BaseStays(Fresh(base, text), events, s);
    assert s.phase.Up? ==> s.log[..s.durable] == s.log;
  }

  lemma {:induction false} BaseStays<V>(s: System<V>, events: seq<Event<V>>, t: System<V>)
    requires Leads(s, events, t)
    ensures t.base == s.base && t.text == s.text
    decreases |events|
  {
    if events != [] {
      BaseStays(Next(s, events[0]), events[1..], t);
    }
  }

  /** What the next open finds after a crash in the middle of a call. */
  lemma CutCallRecovers<V>(s: System<V>, ops: seq<Line<V>>, n: nat, cut: nat)
    requires Inv(s) && s.phase.Up? && Whole(ops) && ops != [] && CutAt(s, ops, n, cut)
    ensures Contents(CrashedIn(s, ops, n, cut).disk) == Replay(s.phase.live, ops[..Survived(s, ops, n, cut)])
    ensures cut == 0 ==> Survived(s, ops, n, cut) == n
    ensures cut > 0 ==>
              Survived(s, ops, n, cut) == if cut + 1 == |LineBytes(ops[n], s.text)| then n + 1 else n
  {
    var u, k := CrashedIn(s, ops, n, cut), Survived(s, ops, n, cut);
    CrashedInOk(s, ops, n, cut);
    CrashedInIs(s, ops, n, cut);
    assert u.log[..u.durable] == s.log + ops[..k];
    ReplayConcat(s.base, s.log, ops[..k]);
  }

  lemma CrashedInOk<V>(s: System<V>, ops: seq<Line<V>>, n: nat, cut: nat)
    requires Inv(s) && s.phase.Up? && Whole(ops) && ops != [] && CutAt(s, ops, n, cut)
    ensures Inv(CrashedIn(s, ops, n, cut))
  {
    var events := WrittenIsReached(s, ops, n);
    assert n < |ops| ==> ops[n] in ops && ops[n..][0] == ops[n];
    CrashOk(Written(s, ops, n), cut);
  }

  lemma OpensWhenReadable<V>(s: System<V>)
    requires Inv(s) && s.phase.Down?
    ensures Enabled(s, Open) <==> Readable(s.disk.journal)
  {
    ReadableExactly(s.disk.journal, s.text);
  }

  /** A process that is down can start again if and only if what is left of the journal is text. */
  lemma OpensExactlyWhenReadable<V>(base: map<string, V>, text: V -> string, events: seq<Event<V>>, s: System<V>)
    requires Leads(Fresh(base, text), events, s) && s.phase.Down?
    ensures (exists e :: Enabled(s, e)) <==> Readable(s.disk.journal)
  {
    FreshOk(base, text);
    LeadsOk(Fresh(base, text), events, s);
    OpensWhenReadable(s);
    if Readable(s.disk.journal) {
      assert Enabled(s, Event<V>.Open);
    }
  }

  /** One crash in a call: whether the journal it leaves can be read. */
  lemma CutCallReads<V>(s: System<V>, ops: seq<Line<V>>, n: nat, cut: nat)
    requires Inv(s) && s.phase.Up? && Whole(ops) && ops != [] && CutAt(s, ops, n, cut)
    ensures Enabled(CrashedIn(s, ops, n, cut), Open) <==> Readable(Left(s, ops, n, cut))
  {
    var u := CrashedIn(s, ops, n, cut);
    CrashedInOk(s, ops, n, cut);
    CrashedInIs(s, ops, n, cut);
    OpensWhenReadable(u);
    assert Whole(s.disk.journal + ops[..n]);
    ReadableTogether(s.disk.journal + ops[..n], Left(s, ops, n, cut));
  }

  lemma ReadableTogether<V>(whole: seq<Line<V>>, left: seq<Line<V>>)
    requires Whole(whole)
    ensures Readable(whole + left) <==> Readable(left)
  {
    assert forall l :: l in whole + left <==> l in whole || l in left;
  }

  /** Whatever part of the call reached the file, the process can be opened again. */
  ghost predicate AlwaysReopens<V>(s: System<V>, ops: seq<Line<V>>)
    requires s.phase.Up? && Whole(ops)
  {
    forall n: nat, cut: nat | CutAt(s, ops, n, cut) :: Enabled(CrashedIn(s, ops, n, cut), Open)
  }

  lemma PlainCutReads<V>(line: Line<V>, text: V -> string, cut: nat)
    requires Plain(line, text) && cut <= |LineBytes(line, text)|
    ensures IsText(LineBytes(line, text)[..cut])
  {
    var printed := WithNewline(Record(line, text));
    PlainExactly(line, text);
    NewlineIsLast(Record(line, text));
    EveryCutReadsExactly(printed);
    assert IsText(Utf8(printed)[..cut]);
  }

  lemma PlainLineLeavesText<V>(s: System<V>, ops: seq<Line<V>>, n: nat, cut: nat)
    requires Whole(ops) && CutAt(s, ops, n, cut) && forall l | l in ops :: Plain(l, s.text)
    ensures Readable(Left(s, ops, n, cut))
  {
    if cut > 0 {
      assert ops[n] in ops;
      PlainCutReads(ops[n], s.text, cut);
    }
  }

  /** Some cut inside a character of a line with one that is not a single byte leaves no text. */
  lemma BadCut<V>(line: Line<V>, text: V -> string) returns (cut: nat)
    requires !line.Torn? && !Plain(line, text)
    ensures 0 < cut < |LineBytes(line, text)| - 1 && !IsText(LineBytes(line, text)[..cut])
  {
    PlainExactly(line, text);
    cut := CutInside(Record(line, text));
  }

  /** A cut inside a character of line `n`, after which no event is possible. */
  lemma StoppingCut<V>(s: System<V>, ops: seq<Line<V>>, n: nat) returns (cut: nat)
    requires Inv(s) && s.phase.Up? && Whole(ops) && n < |ops| && !Plain(ops[n], s.text)
    ensures CutAt(s, ops, n, cut) && !Enabled(CrashedIn(s, ops, n, cut), Open)
    ensures forall e :: !Enabled(CrashedIn(s, ops, n, cut), e)
  {
    assert ops[n] in ops;
    cut := BadCut(ops[n], s.text);
    var torn := Torn(LineBytes(ops[n], s.text)[..cut]);
    assert Left(s, ops, n, cut) == [torn] && torn in [torn];
    CutCallReads(s, ops, n, cut);
    CrashedInIs(s, ops, n, cut);
    DownAndUnreadable(CrashedIn(s, ops, n, cut));
  }

  /**
   Every crash in a call can be followed by an open exactly when all keys and values of the call's lines are
   written in single-byte characters.
   */
  lemma CallReopensExactly<V>(s: System<V>, ops: seq<Line<V>>)
    requires Inv(s) && s.phase.Up? && Whole(ops) && ops != []
    ensures AlwaysReopens(s, ops) <==> forall l | l in ops :: Plain(l, s.text)
  {
    if forall l | l in ops :: Plain(l, s.text) {
      forall n: nat, cut: nat | CutAt(s, ops, n, cut) ensures Enabled(CrashedIn(s, ops, n, cut), Open) {
        PlainLineLeavesText(s, ops, n, cut);
        CutCallReads(s, ops, n, cut);
      }
    } else {
      var n: nat :| n < |ops| && !Plain(ops[n], s.text);
      var cut := StoppingCut(s, ops, n);
    }
  }

  lemma DownAndUnreadable<V>(s: System<V>)
    requires s.phase.Down? && !Enabled(s, Open)
    ensures forall e :: !Enabled(s, e)
  {
  }

  /** The machine after its first open. */
  function Opened<V>(base: map<string, V>, text: V -> string): System<V> {
    System(Disk(base, []), Up(base, 0), base, [], 0, 0, 0, 0, text)
  }

  lemma OpenedFirst<V>(base: map<string, V>, text: V -> string)
    ensures Inv(Opened(base, text)) && Leads(Fresh(base, text), [Open], Opened(base, text))
  {
    FreshOk(base, text);
    LeadsOne(Fresh(base, text), Event<V>.Open, Opened(base, text));
  }

  lemma CrashInFirstCall<V>(base: map<string, V>, text: V -> string, ops: seq<Line<V>>, n: nat, cut: nat)
      returns (events: seq<Event<V>>)
    requires Whole(ops) && ops != [] && CutAt(Opened(base, text), ops, n, cut)
    ensures Leads(Fresh(base, text), events, CrashedIn(Opened(base, text), ops, n, cut))
  {
    var start, up := Fresh(base, text), Opened(base, text);
    OpenedFirst(base, text);
    var more := WrittenIsReached(up, ops, n);
    LeadsJoin(start, [Event<V>.Open], up, more, Written(up, ops, n));
    assert n < |ops| ==> ops[n] in ops && ops[n..][0] == ops[n];
    LeadsOneMore(start, [Event<V>.Open] + more, Written(up, ops, n), Crash(cut), CrashedIn(up, ops, n, cut));
    events := [Event<V>.Open] + more + [Event<V>.Crash(cut)];
  }

  /** A file whose name has an accent is enough, whatever its value: the process never starts again. */
  lemma AccentedKeyStops<V>(value: V, text: V -> string) returns (events: seq<Event<V>>, s: System<V>)
    ensures Leads(Fresh(map[], text), events, s) && s.phase.Down?
    ensures s.log == [Put("caf\U{E9}", value)] && forall e :: !Enabled(s, e)
  {
    var up := Opened(map[], text);
    var ops := [Put("caf\U{E9}", value)];
    OpenedFirst(map[], text);
    assert "caf\U{E9}"[3] in "caf\U{E9}" && !Plain(ops[0], text);
    var cut := StoppingCut(up, ops, 0);
    s := CrashedIn(up, ops, 0, cut);
    CrashedInIs(up, ops, 0, cut);
    events := CrashInFirstCall(map[], text, ops, 0, cut);
  }

  // ---------------------------------------------------------------------
  // Runs without multi-byte characters
  // ---------------------------------------------------------------------

  ghost predicate PlainCalls<V>(events: seq<Event<V>>, text: V -> string) {
    forall e | e in events && e.BeginCall? :: forall l | l in e.ops :: Plain(l, text)
  }

  ghost predicate PlainSoFar<V>(s: System<V>) {
    && (forall l | l in s.log :: Plain(l, s.text)) && Readable(s.disk.journal)
  }

  lemma PlainStep<V>(s: System<V>, e: Event<V>)
    requires Inv(s) && Enabled(s, e) && PlainSoFar(s)
    requires e.BeginCall? ==> forall l | l in e.ops :: Plain(l, s.text)
    ensures PlainSoFar(Next(s, e))
  {
    var s' := Next(s, e);
    if e.Crash? && e.cut > 0 {
      var line := s.phase.rest[0];
      assert line == s.log[s.durable];
      PlainCutReads(line, s.text, e.cut);
      assert s'.disk.journal[..|s.disk.journal|] == s.disk.journal && |s'.disk.journal| == |s.disk.journal| + 1;
    } else if e.WriteLine? {
      assert s.phase.rest[0] == s.log[s.durable];
    }
  }

  lemma {:induction false} PlainRun<V>(s: System<V>, events: seq<Event<V>>, t: System<V>)
    requires Inv(s) && PlainSoFar(s) && Leads(s, events, t) && PlainCalls(events, s.text)
    ensures PlainSoFar(t)
    decreases |events|
  {
    if events != [] {
      assert events[0] in events && forall e | e in events[1..] :: e in events;
      PlainStep(s, events[0]);
      StepOk(s, events[0]);
      PlainRun(Next(s, events[0]), events[1..], t);
    }
  }

  /** As long as all keys and values are single-byte text, the process can be opened after any crash of any run. */
  lemma PlainRunsReopen<V>(base: map<string, V>, text: V -> string, events: seq<Event<V>>, s: System<V>)
    requires Leads(Fresh(base, text), events, s) && s.phase.Down? && PlainCalls(events, text)
    ensures Enabled(s, Open)
  {
    FreshOk(base, text);
    LeadsOk(Fresh(base, text), events, s);
    PlainRun(Fresh(base, text), events, s);
    BaseStays(Fresh(base, text), events, s);
    OpensWhenReadable(s);
  }

  /** Over any run, append-triggered compactions rewrite no more entries than lines were appended. */
  lemma CompactionIsAmortised<V>(base: map<string, V>, text: V -> string, events: seq<Event<V>>, s: System<V>)
    requires Leads(Fresh(base, text), events, s)
    ensures s.rewritten <= s.appended
    ensures s.phase.Up? ==>
              s.phase.pending == |s.disk.journal| && (s.phase.pending < 1024 || s.phase.pending < |s.phase.live|)
  {
    FreshOk(base, text);
    LeadsOk(Fresh(base, text), events, s);
  }

  /** An append compacts exactly when the journal then has at least 1024 lines and as many as the map has entries. */
  lemma CompactsExactly<V>(base: map<string, V>, text: V -> string, events: seq<Event<V>>, s: System<V>)
    requires Leads(Fresh(base, text), events, s) && Enabled(s, EndWrite)
    ensures Next(s, EndWrite).phase.Compacting?
       <==> |s.disk.journal| >= 1024 && |s.disk.journal| >= |Contents(s.disk)|
  {
    FreshOk(base, text);
    LeadsOk(Fresh(base, text), events, s);
    BaseStays(Fresh(base, text), events, s);
    assert s.log[..s.durable] == s.log;
  }
}
