/**
 The file of device ids in Task/CommunicationConfig.c: 256 lines of a number
 and an id, written from the Modbus registers and read back into them.
 */
module DeviceIdFile {

  import opened Decimal

  const COMMA: int := 44
  const NEWLINE: int := 10
  const FIRST: int := 0x708  // NODE_DEVICE_ID_FIRST_ADDRESS
  const NREGS: int := 3080   // S_REG_HOLDING_NREGS
  const NODES: int := 256

  /** The holding registers: 16-bit words. */
  ghost predicate Registers(regs: seq<int>) {
    |regs| == NREGS && forall i :: 0 <= i < NREGS ==> 0 <= regs[i] < 0x1_0000
  }

  /** The 32-bit id of a node: the low half comes first. */
  function IdOf(regs: seq<int>, i: nat): int
    requires |regs| == NREGS && i < NODES
  {
    regs[FIRST + 2 * i] + regs[FIRST + 1 + 2 * i] * 0x1_0000
  }

  function WithId(regs: seq<int>, i: nat, id: nat): seq<int>
    requires |regs| == NREGS && i < NODES
  {
    regs[FIRST + 2 * i := id % 0x1_0000][FIRST + 1 + 2 * i := id / 0x1_0000]
  }

  // ---------------------------------------------------------------- the text

  function Line(i: nat, id: nat): seq<int> {
    Digits(i) + [COMMA] + Digits(id) + [COMMA, NEWLINE]
  }

  /** The lines of the nodes from i on. */
  function Text(regs: seq<int>, i: nat): seq<int>
    requires |regs| == NREGS && (forall k :: 0 <= k < NREGS ==> regs[k] >= 0) && i <= NODES
    decreases NODES - i
  {
    if i == NODES then [] else Line(i, IdOf(regs, i)) + Text(regs, i + 1)
  }

  // ---------------------------------------------------------------- reading a line

  /** How many characters f_gets takes: up to a newline, the end of the file, or as many as there is room for. */
  function Gets(text: seq<int>, room: nat): (k: nat)
    ensures k <= |text| && k <= room
  {
    if room == 0 || text == [] then 0 else if text[0] == NEWLINE then 1 else 1 + Gets(text[1..], room - 1)
  }

  function SkipCommas(s: seq<int>): (r: seq<int>)
    ensures |r| <= |s|
  {
    if s != [] && s[0] == COMMA then SkipCommas(s[1..]) else s
  }

  /** The number of characters before the next comma. */
  function UpTo(s: seq<int>): (k: nat)
    ensures k <= |s|
  {
    if s == [] || s[0] == COMMA then 0 else 1 + UpTo(s[1..])
  }

  datatype Tok = None | Tok(token: seq<int>, rest: seq<int>)

  /** strtok with a comma. */
  function StrTok(s: seq<int>): Tok {
    var a := SkipCommas(s);
    if a == [] then None else Tok(a[..UpTo(a)], if UpTo(a) < |a| then a[UpTo(a) + 1..] else [])
  }

  /** The line has the two fields that the reader takes without looking. */
  predicate TwoFields(line: seq<int>) {
    StrTok(line).Tok? && StrTok(StrTok(line).rest).Tok?
  }

  function ReadLine(regs: seq<int>, line: seq<int>): (r: seq<int>)
    requires |regs| == NREGS
    ensures |r| == NREGS
  {
    if TwoFields(line) then
      WithId(regs, Parsed(StrTok(line).token) % 0x100, Parsed(StrTok(StrTok(line).rest).token))
    else regs
  }

  function ReadText(text: seq<int>, regs: seq<int>, room: nat): (r: seq<int>)
    requires |regs| == NREGS
    ensures |r| == NREGS
    decreases |text|
  {
    var k := Gets(text, room);
    if k == 0 then regs else ReadText(text[k..], ReadLine(regs, text[..k]), room)
  }

  ghost predicate AllLines(text: seq<int>, room: nat)
    decreases |text|
  {
    var k := Gets(text, room);
    k == 0 || (TwoFields(text[..k]) && AllLines(text[k..], room))
  }

  // ---------------------------------------------------------------- one line

  ghost predicate Plain(s: seq<int>) {
    forall i :: 0 <= i < |s| ==> IsDigit(s[i])
  }

  lemma {:induction false} UpToComma(a: seq<int>, b: seq<int>)
    requires Plain(a)
    ensures UpTo(a + [COMMA] + b) == |a|
  {
    var s := a + [COMMA] + b;
    if a != [] {
      assert s[0] == a[0] && s[1..] == a[1..] + [COMMA] + b;
      UpToComma(a[1..], b);
    }
  }

  lemma TokenIs(a: seq<int>, b: seq<int>)
    requires Plain(a) && a != []
    ensures StrTok(a + [COMMA] + b) == Tok(a, b)
  {
    var s := a + [COMMA] + b;
    assert s[0] == a[0] && SkipCommas(s) == s;
    UpToComma(a, b);
    assert s[..|a|] == a && s[|a| + 1..] == b;
  }

  lemma DigitsPlain(n: nat)
    ensures Plain(Digits(n))
  {
  }

  lemma LineTokens(i: nat, id: nat)
    ensures TwoFields(Line(i, id))
    ensures StrTok(Line(i, id)).token == Digits(i) && StrTok(StrTok(Line(i, id)).rest).token == Digits(id)
  {
    hide Digits, StrTok;
    var rest := Digits(id) + [COMMA] + [NEWLINE];
    assert Line(i, id) == Digits(i) + [COMMA] + rest;
    DigitsPlain(i);
    DigitsPlain(id);
    TokenIs(Digits(i), rest);
    TokenIs(Digits(id), [NEWLINE]);
  }

  /** f_gets takes exactly one line if it has room for it. */
  lemma {:induction false} GetsLine(a: seq<int>, b: seq<int>, room: nat)
    requires (forall i :: 0 <= i < |a| ==> a[i] != NEWLINE) && |a| < room
    ensures Gets(a + [NEWLINE] + b, room) == |a| + 1
  {
    var s := a + [NEWLINE] + b;
    if a != [] {
      assert s[0] == a[0] && s[1..] == a[1..] + [NEWLINE] + b;
      GetsLine(a[1..], b, room - 1);
    }
  }

  lemma {:induction false} DigitsLength(n: nat, k: nat)
    requires n < Pow10(k) && k > 0
    ensures |Digits(n)| <= k
    decreases k
  {
    if n >= 10 {
      DigitsLength(n / 10, k - 1);
    }
  }

  lemma LineLength(i: nat, id: nat)
    requires i < NODES && id < WORD
    ensures 5 <= |Line(i, id)| <= 16
  {
    Pow10Is();
    assert Pow10(3) == 1000;
    DigitsLength(i, 3);
    DigitsLength(id, 10);
  }

  /** Reading the first line of a text. */
  lemma LineRead(i: nat, id: nat, more: seq<int>, regs: seq<int>, room: nat)
    requires i < NODES && id < WORD && |regs| == NREGS && room >= 16
    ensures Gets(Line(i, id) + more, room) == |Line(i, id)|
    ensures ReadLine(regs, Line(i, id)) == WithId(regs, i, id)
  {
    hide Digits, Parsed, StrTok, TwoFields, WithId, Gets, Value, Pow10;
    LineLength(i, id);
    LineTokens(i, id);
    RoundTrip(i);
    RoundTrip(id);
    GetsWholeLine(i, id, more, room);
  }

  lemma GetsWholeLine(i: nat, id: nat, more: seq<int>, room: nat)
    requires |Line(i, id)| <= room
    ensures Gets(Line(i, id) + more, room) == |Line(i, id)|
  {
    hide Digits, Gets;
    DigitsPlain(i);
    DigitsPlain(id);
    var a := Digits(i) + [COMMA] + Digits(id) + [COMMA];
    assert Line(i, id) == a + [NEWLINE];
    GetsLine(a, more, room);
  }

  // ---------------------------------------------------------------- the whole file

  lemma IdRange(regs: seq<int>, i: nat)
    requires Registers(regs) && i < NODES
    ensures 0 <= IdOf(regs, i) < WORD
    ensures IdOf(regs, i) % 0x1_0000 == regs[FIRST + 2 * i] && IdOf(regs, i) / 0x1_0000 == regs[FIRST + 1 + 2 * i]
  {
  }

  /** The registers r agree with regs from node i on and with other everywhere else. */
  ghost predicate Restored(r: seq<int>, regs: seq<int>, other: seq<int>, i: nat)
    requires |r| == |regs| == |other| == NREGS
  {
    forall k :: 0 <= k < NREGS ==> r[k] == if FIRST + 2 * i <= k < FIRST + 2 * NODES then regs[k] else other[k]
  }

  lemma RestoredNone(regs: seq<int>, other: seq<int>)
    requires |regs| == |other| == NREGS
    ensures Restored(other, regs, other, NODES)
  {
  }

  lemma WithIdKeeps(regs: seq<int>, i: nat, id: nat)
    requires |regs| == NREGS && i < NODES
    ensures |WithId(regs, i, id)| == NREGS
  {
  }

  lemma RestoredStep(r: seq<int>, regs: seq<int>, other: seq<int>, i: nat)
    requires Registers(regs) && |r| == |other| == NREGS && i < NODES
    requires Restored(r, regs, WithId(other, i, IdOf(regs, i)), i + 1)
    ensures Restored(r, regs, other, i)
  {
    hide IdOf;
    IdRange(regs, i);
  }

  lemma GetsNothing(room: nat)
    ensures Gets([], room) == 0
  {
  }

  lemma {:induction false} ReadRestores(regs: seq<int>, other: seq<int>, i: nat, room: nat)
    requires Registers(regs) && |other| == NREGS && i <= NODES && room >= 16
    ensures Restored(ReadText(Text(regs, i), other, room), regs, other, i) && AllLines(Text(regs, i), room)
    decreases NODES - i
  {
    hide Line, ReadLine, IdOf, TwoFields, Gets, Digits, Pow10, WithId, Restored;
    if i == NODES {
      RestoredNone(regs, other);
      GetsNothing(room);
    } else {
      IdRange(regs, i);
      var id, more := IdOf(regs, i), Text(regs, i + 1);
      LineRead(i, id, more, other, room);
      LineTokens(i, id);
      LineLength(i, id);
      var text := Text(regs, i);
      assert text[..|Line(i, id)|] == Line(i, id) && text[|Line(i, id)|..] == more;
      WithIdKeeps(other, i, id);
      ReadRestores(regs, WithId(other, i, id), i + 1, room);
      RestoredStep(ReadText(text, other, room), regs, other, i);
    }
  }

  lemma {:induction false} TextLength(regs: seq<int>, i: nat)
    requires Registers(regs) && i <= NODES
    ensures 5 * (NODES - i) <= |Text(regs, i)| <= 16 * (NODES - i)
    decreases NODES - i
  {
    hide Line, IdOf;
    if i < NODES {
      IdRange(regs, i);
      LineLength(i, IdOf(regs, i));
      TextLength(regs, i + 1);
    }
  }

  /** The buffer of the reader: the file size is kept in 16 bits, and f_gets leaves room for a zero. */
  function Room(file: seq<int>): nat {
    if |file| % 0x1_0000 == 0 then 0 else |file| % 0x1_0000 - 1
  }

  /** What was saved is restored, whatever the registers hold when it is read, and nothing else is changed. */
  lemma SaveThenRead(regs: seq<int>, other: seq<int>)
    requires Registers(regs) && |other| == NREGS
    ensures var file := Text(regs, 0);
            AllLines(file, Room(file)) && Restored(ReadText(file, other, Room(file)), regs, other, 0)
  {
    hide Text, ReadText, AllLines, Restored;
    TextLength(regs, 0);
    ReadRestores(regs, other, 0, Room(Text(regs, 0)));
  }

  // ---------------------------------------------------------------- the functions of the program

  /** The string in a buffer: what comes before the first zero. */
  function CString(s: seq<int>): seq<int> {
    if s == [] || s[0] == 0 then [] else [s[0]] + CString(s[1..])
  }

  lemma {:induction false} CStringIs(s: seq<int>, a: seq<int>)
    requires |a| < |s| && s[..|a|] == a && s[|a|] == 0 && forall i :: 0 <= i < |a| ==> a[i] != 0
    ensures CString(s) == a
  {
    if a != [] {
      assert s[0] == s[..|a|][0] && s[1..][..|a| - 1] == s[..|a|][1..];
      CStringIs(s[1..], a[1..]);
    }
  }

  /** IntToStr and f_puts on a clear buffer, which is clear again afterwards. */
  method PutNumber(str: array<int>, n: nat) returns (out: seq<int>)
    requires n < WORD && str.Length > 10 && forall i :: 0 <= i < str.Length ==> str[i] == 0
    modifies str
    ensures out == Digits(n) && forall i :: 0 <= i < str.Length ==> str[i] == 0
  {
    IntToStr(str, n);
    CStringIs(str[..], Digits(n));
    out := CString(str[..]);
    for i := 0 to |out|
      invariant forall j :: 0 <= j < i ==> str[j] == 0
      invariant forall j :: |out| <= j < str.Length ==> str[j] == 0
    {
      str[i] := 0;
    }
  }

  /** SaveDeviceIdFile */
  method SaveDeviceIdFile(regs: array<int>) returns (file: seq<int>)
    requires Registers(regs[..])
    ensures file == Text(regs[..], 0)
  {
    hide Digits, Text, IdOf;
    var str := new int[1024](_ => 0);
    ghost var words := regs[..];
    file := [];
    assert [] + Text(words, 0) == Text(words, 0);
    for i := 0 to NODES
      invariant forall j :: 0 <= j < str.Length ==> str[j] == 0
      invariant regs[..] == words && file + Text(words, i) == Text(words, 0)
    {
      IdRange(words, i);
      TextStep(words, i);
      var number := PutNumber(str, i);
      var id := PutNumber(str, regs[FIRST + 2 * i] + regs[FIRST + 1 + 2 * i] * 0x1_0000);
      var line := number + [COMMA] + id + [COMMA, NEWLINE];
      assert line == Line(i, IdOf(words, i));
      assert file + (line + Text(words, i + 1)) == file + line + Text(words, i + 1);
      file := file + line;
    }
    TextStep(words, NODES);
    assert file + [] == file;
  }

  lemma TextStep(regs: seq<int>, i: nat)
    requires Registers(regs) && i <= NODES
    ensures i == NODES ==> Text(regs, i) == []
    ensures i < NODES ==>
              && IdOf(regs, i) == regs[FIRST + 2 * i] + regs[FIRST + 1 + 2 * i] * 0x1_0000
              && Text(regs, i) == Line(i, IdOf(regs, i)) + Text(regs, i + 1)
  {
  }

  /** ReadDeviceIdFile, on a file whose lines have two fields. */
  method ReadDeviceIdFile(file: seq<int>, regs: array<int>)
    requires regs.Length == NREGS && AllLines(file, Room(file))
    modifies regs
    ensures regs[..] == ReadText(file, old(regs[..]), Room(file))
  {
    hide StrTok, Parsed;
    var text, room := file, Room(file);
    ghost var before := regs[..];
    var k := Gets(text, room);
    while k > 0
      invariant k == Gets(text, room) && AllLines(text, room)
      invariant ReadText(text, regs[..], room) == ReadText(file, before, room)
      decreases |text|
    {
      ghost var words := regs[..];
      var first := StrTok(text[..k]);
      var number := StrToInt(first.token);
      var num := number % 0x100;
      var second := StrTok(first.rest);
      var temp := StrToInt(second.token);
      regs[FIRST + 2 * num] := temp % 0x1_0000;
      regs[FIRST + 1 + 2 * num] := temp / 0x1_0000;
      assert regs[..] == ReadLine(words, text[..k]);
      text := text[k..];
      k := Gets(text, room);
    }
  }
}
