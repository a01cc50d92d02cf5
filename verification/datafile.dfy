/** The line tokenizer and string-operand parser of the data files that hold
    the braille tables and key tables (Programs/datafile.c): braille dot
    numbers, keyword matching, operand scanning, the escape grammar of
    string operands, and the scoped variables a file may assign. */
module DataFile {
  import opened Common

  /** A wide character (`wchar_t`), as its code. */
  type WChar = nat
  type WString = seq<WChar>

  function W(c: char): WChar { c as nat }

  /** `iswspace` in the "C" locale. */
  predicate IsWSpace(c: WChar) {
    c == 32 || 9 <= c <= 13
  }

  /** `towlower` in the "C" locale: only ASCII letters fold. */
  function WLower(c: WChar): WChar {
    if W('A') <= c <= W('Z') then c + 32 else c
  }

  /** Index of the first `x` in `s` at or after `from`. */
  function FindFrom(s: WString, from: nat, x: WChar): (r: Option<nat>)
    requires from <= |s|
    ensures r.None? ==> forall k :: from <= k < |s| ==> s[k] != x
    ensures r.Some? ==> from <= r.value < |s| && s[r.value] == x
    ensures r.Some? ==> forall k :: from <= k < r.value ==> s[k] != x
    decreases |s| - from
  {
    if from == |s| then None
    else if s[from] == x then Some(from)
    else FindFrom(s, from + 1, x)
  }

  // ---------------------------------------------------------------------------
  // Braille dots
  // ---------------------------------------------------------------------------

  /** The dot numbers of a braille cell, and the bit of each dot
      (brlDotNumbers, brlDotBits). */
  const DotNumbers: WString := [W('1'), W('2'), W('3'), W('4'), W('5'), W('6'), W('7'), W('8')]
  const DotBits: seq<byte> := [0x01, 0x02, 0x04, 0x08, 0x10, 0x20, 0x40, 0x80]

  /** Index of the first occurrence of `x` in `s` (wmemchr, memchr). */
  function IndexIn<T(==)>(s: seq<T>, x: T): (r: Option<nat>)
    ensures r.None? <==> x !in s
    ensures r.Some? ==> r.value < |s| && s[r.value] == x
  {
    if |s| == 0 then None
    else if s[0] == x then Some(0)
    else match IndexIn(s[1..], x)
      case None => None
      case Some(i) => Some(i + 1)
  }

  /** brlDotNumberToIndex. */
  function DotNumberToIndex(number: WChar): (r: Option<nat>)
    ensures r.Some? ==> r.value < |DotNumbers| && DotNumbers[r.value] == number
    ensures r.None? <==> number !in DotNumbers
  {
    IndexIn(DotNumbers, number)
  }

  /** brlDotBitToIndex. */
  function DotBitToIndex(bit: byte): (r: Option<nat>)
    ensures r.Some? ==> r.value < |DotBits| && DotBits[r.value] == bit
    ensures r.None? <==> bit !in DotBits
  {
    IndexIn(DotBits, bit)
  }

  /** The characters '1' to '8' name dots 0 to 7, and nothing else names a dot. */
  lemma DotNumberMeaning(number: WChar)
    ensures DotNumberToIndex(number) ==
      if W('1') <= number <= W('8') then Some(number - W('1')) else None
  {
    assert forall k :: 0 <= k < 8 ==> DotNumbers[k] == W('1') + k;
    var r := DotNumberToIndex(number);
    if W('1') <= number <= W('8') {
      assert DotNumbers[number - W('1')] == number;
      assert r.Some?;
      assert number == W('1') + r.value;
    } else {
      assert number !in DotNumbers;
    }
  }

  /** Each dot's bit names that dot: the bits of the table are distinct. */
  lemma DotBitRoundTrip(i: nat)
    requires i < |DotBits|
    ensures DotBitToIndex(DotBits[i]) == Some(i)
  {
    DotBitsDistinct();
  }

  /** The value of dot bit k is 2 to the power k. */
  function DotBitValue(k: nat): nat {
    if k == 0 then 1 else if k == 1 then 2 else if k == 2 then 4 else if k == 3 then 8
    else if k == 4 then 16 else if k == 5 then 32 else if k == 6 then 64 else 128
  }

  lemma DotBitsDistinct()
    ensures forall j, k :: 0 <= j < k < |DotBits| ==> DotBits[j] != DotBits[k]
  {
    forall j, k | 0 <= j < k < |DotBits| ensures DotBits[j] != DotBits[k] {
      assert DotBits[j] as nat == DotBitValue(j);
      assert DotBits[k] as nat == DotBitValue(k);
    }
  }

  // ---------------------------------------------------------------------------
  // Keywords and digits
  // ---------------------------------------------------------------------------

  /** isKeyword: `characters` spells `keyword`, ignoring case. */
  function IsKeyword(keyword: WString, characters: WString): (r: bool)
    ensures r <==> |characters| == |keyword|
                   && forall i :: 0 <= i < |keyword| ==> WLower(characters[i]) == WLower(keyword[i])
  {
    |characters| == |keyword| && MatchFrom(keyword, characters, 0)
  }

  function MatchFrom(keyword: WString, characters: WString, i: nat): (r: bool)
    requires |characters| == |keyword| && i <= |keyword|
    ensures r <==> forall k :: i <= k < |keyword| ==> WLower(characters[k]) == WLower(keyword[k])
    decreases |keyword| - i
  {
    if i == |keyword| then true
    else WLower(characters[i]) == WLower(keyword[i]) && MatchFrom(keyword, characters, i + 1)
  }

  /** A digit of a numeric escape: its value and the bits it contributes. */
  datatype Digit = Digit(value: nat, shift: nat)

  /** isHexadecimalDigit. */
  function HexadecimalDigit(c: WChar): (r: Option<Digit>)
    ensures r.Some? <==> W('0') <= c <= W('9') || W('a') <= c <= W('f') || W('A') <= c <= W('F')
    ensures r.Some? ==> r.value.value < 16 && r.value.shift == 4
  {
    if W('0') <= c <= W('9') then Some(Digit(c - W('0'), 4))
    else if W('a') <= c <= W('f') then Some(Digit(c - W('a') + 10, 4))
    else if W('A') <= c <= W('F') then Some(Digit(c - W('A') + 10, 4))
    else None
  }

  /** isOctalDigit. */
  function OctalDigit(c: WChar): (r: Option<Digit>)
    ensures r.Some? <==> W('0') <= c <= W('7')
    ensures r.Some? ==> r.value.value < 8 && r.value.shift == 3
  {
    if W('0') <= c <= W('7') then Some(Digit(c - W('0'), 3)) else None
  }

  /** The hexadecimal digit for `v`, in lower or upper case. */
  function HexChar(v: nat, upper: bool): (c: WChar)
    requires v < 16
  {
    if v < 10 then W('0') + v else (if upper then W('A') else W('a')) + v - 10
  }

  /** Every value below 16 is written by a hexadecimal digit of either case,
      and every hexadecimal digit is the writing of its value. */
  lemma HexDigitRoundTrip(v: nat, upper: bool, c: WChar)
    requires v < 16
    ensures HexadecimalDigit(HexChar(v, upper)) == Some(Digit(v, 4))
    ensures HexadecimalDigit(c).Some? ==>
      c == HexChar(HexadecimalDigit(c).value.value, W('A') <= c <= W('F'))
  {
  }

  /** Every octal digit is the writing of its value. */
  lemma OctalDigitRoundTrip(v: nat)
    requires v < 8
    ensures OctalDigit(W('0') + v) == Some(Digit(v, 3))
  {
  }

  // ---------------------------------------------------------------------------
  // Operand scanning
  // ---------------------------------------------------------------------------

  /** The scanning position of a data file on its current line: the current
      operand is line[start..end].  The end of the line stands for the
      terminating NUL of the C string. */
  datatype Cursor = Cursor(start: nat, end: nat)

  predicate CursorOn(line: WString, cur: Cursor) {
    cur.start <= cur.end <= |line|
  }

  /** The first non-space position at or after `i`. */
  function SkipSpaces(line: WString, i: nat): (j: nat)
    requires i <= |line|
    ensures i <= j <= |line| && (j < |line| ==> !IsWSpace(line[j]))
    ensures forall k :: i <= k < j ==> IsWSpace(line[k])
    decreases |line| - i
  {
    if i < |line| && IsWSpace(line[i]) then SkipSpaces(line, i + 1) else i
  }

  /** The end of the run of non-space characters starting at `i`. */
  function SkipWord(line: WString, i: nat): (j: nat)
    requires i <= |line|
    ensures i <= j <= |line| && (j < |line| ==> IsWSpace(line[j]))
    ensures forall k :: i <= k < j ==> !IsWSpace(line[k])
    decreases |line| - i
  {
    if i < |line| && !IsWSpace(line[i]) then SkipWord(line, i + 1) else i
  }

  /** What a scanning call leaves: whether it found something, and the cursor. */
  datatype Scan = Scan(ok: bool, cur: Cursor)

  /** findDataOperand: moves to the next non-space character after the
      current operand; fails at the end of the line. */
  function FindDataOperand(line: WString, cur: Cursor): (r: Scan)
    requires CursorOn(line, cur)
    ensures CursorOn(line, r.cur) && r.cur.start == r.cur.end && cur.end <= r.cur.start
    ensures forall k :: cur.end <= k < r.cur.start ==> IsWSpace(line[k])
    ensures r.ok <==> r.cur.start < |line|
    ensures r.ok ==> !IsWSpace(line[r.cur.start])
  {
    var start := SkipSpaces(line, cur.end);
    Scan(start < |line|, Cursor(start, start))
  }

  /** getDataOperand: the next operand is the longest run of non-space
      characters after the spaces that follow the current one. */
  function GetDataOperand(line: WString, cur: Cursor): (r: Scan)
    requires CursorOn(line, cur)
    ensures CursorOn(line, r.cur) && cur.end <= r.cur.start
    ensures forall k :: cur.end <= k < r.cur.start ==> IsWSpace(line[k])
    ensures r.ok <==> exists k :: cur.end <= k < |line| && !IsWSpace(line[k])
    ensures r.ok ==> r.cur.start < r.cur.end
                     && (forall k :: r.cur.start <= k < r.cur.end ==> !IsWSpace(line[k]))
                     && (r.cur.end == |line| || IsWSpace(line[r.cur.end]))
    ensures !r.ok ==> r.cur == Cursor(|line|, |line|)
  {
    var f := FindDataOperand(line, cur);
    if !f.ok then f
    else Scan(true, Cursor(f.cur.start, SkipWord(line, f.cur.start + 1)))
  }

  /** getDataText: the rest of the line from the next operand on, without
      its trailing spaces.  The cursor moves to the end of the line. */
  datatype TextScan = TextScan(ok: bool, cur: Cursor, length: nat)

  function GetDataText(line: WString, cur: Cursor): (r: TextScan)
    requires CursorOn(line, cur)
    ensures CursorOn(line, r.cur) && r.cur.end == |line|
    ensures r.ok <==> exists k :: cur.end <= k < |line| && !IsWSpace(line[k])
    ensures r.ok ==>
      && (forall k :: cur.end <= k < r.cur.start ==> IsWSpace(line[k]))
      && 0 < r.length && r.cur.start + r.length <= |line|
      && !IsWSpace(line[r.cur.start]) && !IsWSpace(line[r.cur.start + r.length - 1])
      && forall k :: r.cur.start + r.length <= k < |line| ==> IsWSpace(line[k])
  {
    var f := FindDataOperand(line, cur);
    if !f.ok then TextScan(false, f.cur, 0)
    else
      var start := f.cur.start;
      TextScan(true, Cursor(start, |line|), TrimmedLength(line, start, |line| - start))
  }

  /** The length of line[start..start+length] without its trailing spaces. */
  function TrimmedLength(line: WString, start: nat, length: nat): (r: nat)
    requires start + length <= |line|
    ensures r <= length && (r > 0 ==> !IsWSpace(line[start + r - 1]))
    ensures forall k :: start + r <= k < start + length ==> IsWSpace(line[k])
    ensures (start < |line| && !IsWSpace(line[start]) && length > 0) ==> r > 0
  {
    if length > 0 && IsWSpace(line[start + length - 1]) then TrimmedLength(line, start, length - 1)
    else length
  }

  /** ungetDataCharacters: gives back the last `count` characters of the
      current operand, refusing to move before its start. */
  function UngetDataCharacters(cur: Cursor, count: nat): (r: Option<Cursor>)
    requires cur.start <= cur.end
    ensures r.None? <==> count > cur.end - cur.start
    ensures r.Some? ==> r.value == Cursor(cur.start, cur.end - count)
  {
    if count > cur.end - cur.start then None else Some(Cursor(cur.start, cur.end - count))
  }

  /** Giving back a whole operand and reading again yields the same operand:
      what processPropertyOperand relies on when it hands an unrecognised
      name to the default processor. */
  lemma UngetThenGet(line: WString, cur: Cursor)
    requires CursorOn(line, cur) && GetDataOperand(line, cur).ok
    ensures var c := GetDataOperand(line, cur).cur;
      UngetDataCharacters(c, c.end - c.start) == Some(Cursor(c.start, c.start))
      && GetDataOperand(line, Cursor(c.start, c.start)) == GetDataOperand(line, cur)
  {
    var c := GetDataOperand(line, cur).cur;
    assert SkipSpaces(line, c.start) == c.start;
  }

  /** What processWcharLine does with a line. */
  datatype LineKind = Blank | Comment | Directive(cur: Cursor)

  /** processWcharLine: blank lines and lines whose first operand starts
      with '#' never reach the line processor. */
  function ClassifyLine(line: WString): (r: LineKind)
    ensures r.Blank? <==> forall k :: 0 <= k < |line| ==> IsWSpace(line[k])
    ensures r.Comment? <==> exists k :: 0 <= k < |line| && line[k] == W('#')
                                        && forall j :: 0 <= j < k ==> IsWSpace(line[j])
    ensures r.Directive? ==> CursorOn(line, r.cur) && r.cur.start < |line| && r.cur.start == r.cur.end
                             && !IsWSpace(line[r.cur.start]) && line[r.cur.start] != W('#')
  {
    var f := FindDataOperand(line, Cursor(0, 0));
    if !f.ok then Blank
    else if line[f.cur.start] == W('#') then Comment
    else Directive(f.cur)
  }

  // ---------------------------------------------------------------------------
  // Variables
  // ---------------------------------------------------------------------------

  datatype Variable = Variable(name: WString, value: WString)

  /** The variables of one data file, in the order they were first assigned. */
  type Scope = seq<Variable>

  /** The scope of the file being read first, then the scope of the file that
      included it, and so on up to the global scope. */
  type Scopes = seq<Scope>

  /** Index of the variable called `name` in a scope (findItem). */
  function FindVariable(scope: Scope, name: WString): (r: Option<nat>)
    ensures r.None? <==> forall i :: 0 <= i < |scope| ==> scope[i].name != name
    ensures r.Some? ==> r.value < |scope| && scope[r.value].name == name
    ensures r.Some? ==> forall i :: 0 <= i < r.value ==> scope[i].name != name
  {
    if |scope| == 0 then None
    else if scope[0].name == name then Some(0)
    else match FindVariable(scope[1..], name)
      case None => None
      case Some(i) => Some(i + 1)
  }

  /** getReadableDataVariable: the value in the innermost scope that has the
      variable. */
  function LookupVariable(scopes: Scopes, name: WString): Option<WString>
  {
    if |scopes| == 0 then None
    else match FindVariable(scopes[0], name)
      case Some(i) => Some(scopes[0][i].value)
      case None => LookupVariable(scopes[1..], name)
  }

  /** A variable is found when some scope has it, and its value is the one
      of the innermost such scope. */
  lemma {:induction false} LookupInnermost(scopes: Scopes, name: WString)
    ensures var r := LookupVariable(scopes, name);
      && (r.None? <==> forall k :: 0 <= k < |scopes| ==> FindVariable(scopes[k], name).None?)
      && (r.Some? ==> exists k :: 0 <= k < |scopes| && FindVariable(scopes[k], name).Some?
                          && r.value == scopes[k][FindVariable(scopes[k], name).value].value
                          && forall j :: 0 <= j < k ==> FindVariable(scopes[j], name).None?)
  {
    if |scopes| > 0 && FindVariable(scopes[0], name).None? {
      var tail := scopes[1..];
      LookupInnermost(tail, name);
      var r := LookupVariable(tail, name);
      assert forall k :: 1 <= k < |scopes| ==> scopes[k] == tail[k - 1];
      if r.Some? {
        var k :| 0 <= k < |tail| && FindVariable(tail[k], name).Some?
                 && r.value == tail[k][FindVariable(tail[k], name).value].value
                 && forall j :: 0 <= j < k ==> FindVariable(tail[j], name).None?;
        assert scopes[k + 1] == tail[k];
        assert forall j :: 0 <= j < k + 1 ==> FindVariable(scopes[j], name).None? by {
          forall j | 0 <= j < k + 1 ensures FindVariable(scopes[j], name).None? {
            if j > 0 { assert scopes[j] == tail[j - 1]; }
          }
        }
      }
    }
  }

  /** getWritableDataVariable then setDataVariable: the variable of the
      current scope is created at the end of the scope or overwritten. */
  function AssignVariable(scopes: Scopes, name: WString, value: WString): (r: Scopes)
    requires |scopes| > 0
    ensures |r| == |scopes| && r[1..] == scopes[1..] && |r[0]| >= |scopes[0]|
    ensures FindVariable(r[0], name).Some? && r[0][FindVariable(r[0], name).value].value == value
    ensures forall n :: n != name ==> FindVariable(r[0], n) == FindVariable(scopes[0], n)
    ensures forall i :: 0 <= i < |scopes[0]| && scopes[0][i].name != name ==> r[0][i] == scopes[0][i]
  {
    var scope := scopes[0];
    var scope' := match FindVariable(scope, name)
      case Some(i) => scope[i := Variable(name, value)]
      case None => scope + [Variable(name, value)];
    FindAfterAssign(scope, name, value, scope');
    [scope'] + scopes[1..]
  }

  lemma FindAfterAssign(scope: Scope, name: WString, value: WString, scope': Scope)
    requires scope' == match FindVariable(scope, name)
      case Some(i) => scope[i := Variable(name, value)]
      case None => scope + [Variable(name, value)]
    ensures FindVariable(scope', name).Some? && scope'[FindVariable(scope', name).value].value == value
    ensures forall n :: n != name ==> FindVariable(scope', n) == FindVariable(scope, n)
  {
    forall n | n != name ensures FindVariable(scope', n) == FindVariable(scope, n) {
      FindOther(scope, scope', n, name);
    }
    match FindVariable(scope, name)
    case Some(i) => FindAt(scope', name, i);
    case None => FindAt(scope', name, |scope|);
  }

  lemma {:induction false} FindAt(scope: Scope, name: WString, i: nat)
    requires i < |scope| && scope[i].name == name && forall j :: 0 <= j < i ==> scope[j].name != name
    ensures FindVariable(scope, name) == Some(i)
  {
    if i > 0 {
      FindAt(scope[1..], name, i - 1);
    }
  }

  lemma {:induction false} FindOther(scope: Scope, scope': Scope, n: WString, name: WString)
    requires n != name && |scope| <= |scope'|
    requires forall i :: 0 <= i < |scope| && scope[i].name != name ==> scope'[i] == scope[i]
    requires forall i :: 0 <= i < |scope| && scope[i].name == name ==> scope'[i].name == name
    requires forall i :: |scope| <= i < |scope'| ==> scope'[i].name == name
    ensures FindVariable(scope', n) == FindVariable(scope, n)
  {
    if |scope| > 0 {
      FindOther(scope[1..], scope'[1..], n, name);
    } else if |scope'| > 0 {
      FindOther(scope, scope'[1..], n, name);
    }
  }

  /** An assignment is seen by the file that makes it, hides the variables
      of the same name in the scopes of the including files, and leaves the
      values of every other name as they were. */
  lemma AssignThenLookup(scopes: Scopes, name: WString, value: WString, other: WString)
    requires |scopes| > 0 && other != name
    ensures LookupVariable(AssignVariable(scopes, name, value), name) == Some(value)
    ensures LookupVariable(AssignVariable(scopes, name, value), other) == LookupVariable(scopes, other)
  {
    var r := AssignVariable(scopes, name, value);
    assert r[1..] == scopes[1..];
  }

  /** processAssignOperands: a name operand and an optional value operand
      (empty when absent); a line without a name changes nothing. */
  function ProcessAssignOperands(line: WString, cur: Cursor, scopes: Scopes): (r: Scopes)
    requires CursorOn(line, cur) && |scopes| > 0
    ensures |r| == |scopes|
    ensures var n := GetDataOperand(line, cur);
      && (!n.ok ==> r == scopes)
      && (n.ok ==>
            var v := GetDataOperand(line, n.cur);
            LookupVariable(r, line[n.cur.start..n.cur.end])
              == Some(if v.ok then line[v.cur.start..v.cur.end] else []))
  {
    var n := GetDataOperand(line, cur);
    if !n.ok then scopes
    else
      var v := GetDataOperand(line, n.cur);
      var name := line[n.cur.start..n.cur.end];
      var value := if v.ok then line[v.cur.start..v.cur.end] else [];
      var r := AssignVariable(scopes, name, value);
      assert LookupVariable(r, name) == Some(value);
      r
  }

  // ---------------------------------------------------------------------------
  // String operands
  // ---------------------------------------------------------------------------

  /** The largest wide character (WCHAR_MAX for a 32-bit signed wchar_t). */
  const WcharMax: nat := 0x7FFF_FFFF

  /** What parseDataString needs besides the characters: whether Unicode
      escapes are refused, the variables, the character names of the
      Unicode database (`u_charFromName`, absent when ICU is not built in),
      and the capacity of the result buffer, terminator included. */
  datatype StringEnv = StringEnv(noUnicode: bool, scopes: Scopes,
                                 charFromName: WString -> Option<WChar>, capacity: nat)

  /** The value of a run of digits, most significant first, or None when one
      of them is not a digit of the base. */
  function RunValue(ds: WString, hex: bool): (r: Option<nat>)
    decreases |ds|
  {
    if |ds| == 0 then Some(0)
    else
      var d := if hex then HexadecimalDigit(ds[|ds| - 1]) else OctalDigit(ds[|ds| - 1]);
      match (RunValue(ds[..|ds| - 1], hex), d)
      case (Some(v), Some(digit)) => Some(v * (if hex then 16 else 8) + digit.value)
      case _ => None
  }

  /** A numeric escape: exactly `count` digits starting at `from`, whose value
      must not exceed WCHAR_MAX. */
  function NumberEscape(chars: WString, from: nat, count: nat, hex: bool): (r: Option<(WString, nat)>)
    ensures r.Some? ==> from + count <= |chars| && r.value.1 == from + count && |r.value.0| == 1
  {
    if from + count > |chars| then None
    else match RunValue(chars[from..from + count], hex)
      case None => None
      case Some(v) => if v > WcharMax then None else Some(([v], from + count))
  }

  /** The control character a one-letter escape stands for. */
  function ControlEscape(c: WChar): Option<WChar> {
    if c == W('b') then Some(8)
    else if c == W('f') then Some(12)
    else if c == W('n') then Some(10)
    else if c == W('r') then Some(13)
    else if c == W('s') then Some(32)
    else if c == W('t') then Some(9)
    else if c == W('v') then Some(11)
    else None
  }

  /** A character name with its underscores read as spaces. */
  function Underscores(s: WString): (r: WString)
    ensures |r| == |s|
    ensures forall i :: 0 <= i < |s| ==> r[i] == if s[i] == W('_') then W(' ') else s[i]
  {
    if |s| == 0 then [] else [if s[0] == W('_') then W(' ') else s[0]] + Underscores(s[1..])
  }

  /** The `\{name}` escape whose name starts at `from`: the value of the
      variable, which must be defined. */
  function VariableEscape(chars: WString, from: nat, env: StringEnv): (r: Option<(WString, nat)>)
    requires from <= |chars|
    ensures r.Some? ==> from < r.value.1 <= |chars|
  {
    match FindFrom(chars, from, W('}'))
    case None => None
    case Some(k) =>
      match LookupVariable(env.scopes, chars[from..k])
      case None => None
      case Some(value) => Some((value, k + 1))
  }

  /** The `\<name>` escape whose name starts at `from`: the character with
      that Unicode name, the underscores read as spaces; a name outside
      Latin-1 is refused. */
  function NamedEscape(chars: WString, from: nat, env: StringEnv): (r: Option<(WString, nat)>)
    requires from <= |chars|
    ensures r.Some? ==> from < r.value.1 <= |chars|
  {
    match FindFrom(chars, from, W('>'))
    case None => None
    case Some(k) =>
      var name := Underscores(chars[from..k]);
      if exists i :: 0 <= i < |name| && name[i] > 0xFF then None
      else match env.charFromName(name)
        case None => None
        case Some(ch) => Some(([ch], k + 1))
  }

  /** The escape sequence whose letter is at `j` (just after the backslash):
      what it substitutes, and where parsing resumes; None when the whole
      string is rejected. */
  function EscapeAt(chars: WString, j: nat, env: StringEnv): (r: Option<(WString, nat)>)
    ensures r.Some? ==> j < r.value.1 <= |chars|
  {
    if j >= |chars| then None
    else
      var c := chars[j];
      if c == W('#') || c == W('\\') then Some(([c], j + 1))
      else if ControlEscape(c).Some? then Some(([ControlEscape(c).value], j + 1))
      else if c == W('o') then NumberEscape(chars, j + 1, 3, false)
      else if c == W('U') then (if env.noUnicode then None else NumberEscape(chars, j + 1, 8, true))
      else if c == W('u') then (if env.noUnicode then None else NumberEscape(chars, j + 1, 4, true))
      else if c == W('x') || c == W('X') then NumberEscape(chars, j + 1, 2, true)
      else if c == W('{') then VariableEscape(chars, j + 1, env)
      else if c == W('<') then (if env.noUnicode then None else NamedEscape(chars, j + 1, env))
      else None
  }

  /** parseDataString from position `i`, with `acc` produced so far. */
  function ParseFrom(chars: WString, i: nat, acc: WString, env: StringEnv): (r: Option<WString>)
    requires i <= |chars| && |acc| < env.capacity
    ensures r.Some? ==> acc <= r.value && |r.value| < env.capacity
    decreases |chars| - i
  {
    if i == |chars| then Some(acc)
    else
      var step: Option<(WString, nat)> := if chars[i] != W('\\') then Some(([chars[i]], i + 1)) else EscapeAt(chars, i + 1, env);
      match step
      case None => None
      case Some((sub, next)) =>
        if |acc| + |sub| >= env.capacity then None
        else ParseFrom(chars, next, acc + sub, env)
  }

  /** parseDataString: the characters with their escapes replaced, or None
      when an escape is malformed or the result would not leave room for
      the terminating NUL. */
  function ParseDataString(chars: WString, env: StringEnv): (r: Option<WString>)
    requires env.capacity > 0
    ensures r.Some? ==> |r.value| < env.capacity
  {
    ParseFrom(chars, 0, [], env)
  }

  /** Characters that need no escape inside an operand. */
  predicate Plain(c: WChar) {
    c != W('\\') && c != W('#') && !IsWSpace(c) && c >= 32 && c != 0x7F
  }

  /** The escape the model writes for each character: the named escapes for
      backslash, '#', space and the named controls, two hexadecimal digits
      for the other control characters, and the character itself otherwise. */
  function EscapeChar(c: WChar): (e: WString)
    ensures |e| >= 1
  {
    if Plain(c) then [c]
    else if c == W('\\') || c == W('#') then [W('\\'), c]
    else if c == 8 then [W('\\'), W('b')]
    else if c == 12 then [W('\\'), W('f')]
    else if c == 10 then [W('\\'), W('n')]
    else if c == 13 then [W('\\'), W('r')]
    else if c == 32 then [W('\\'), W('s')]
    else if c == 9 then [W('\\'), W('t')]
    else if c == 11 then [W('\\'), W('v')]
    else if c < 256 then [W('\\'), W('x'), HexChar(c / 16, false), HexChar(c % 16, false)]
    else [c]
  }

  function Escape(s: WString): (e: WString)
  {
    if |s| == 0 then [] else EscapeChar(s[0]) + Escape(s[1..])
  }

  /** An escaped string holds no space, so it is one operand. */
  lemma {:induction false} EscapeHasNoSpace(s: WString)
    ensures forall k :: 0 <= k < |Escape(s)| ==> !IsWSpace(Escape(s)[k])
  {
    if |s| > 0 {
      EscapeHasNoSpace(s[1..]);
      assert Escape(s) == EscapeChar(s[0]) + Escape(s[1..]);
    }
  }

  /** Two hexadecimal digits give back the byte they write. */
  lemma HexPairValue(c: nat)
    requires c < 256
    ensures RunValue([HexChar(c / 16, false), HexChar(c % 16, false)], true) == Some(c)
  {
    var ds := [HexChar(c / 16, false), HexChar(c % 16, false)];
    assert ds[..1] == [HexChar(c / 16, false)] && ds[..1][..0] == [];
    HexDigitRoundTrip(c / 16, false, 0);
    HexDigitRoundTrip(c % 16, false, 0);
    assert RunValue(ds[..1], true) == Some(c / 16);
  }

  /** The escape sequence of a character that is not plain substitutes it. */
  lemma EscapeCharStep(chars: WString, i: nat, c: WChar, env: StringEnv)
    requires !Plain(c) && i + |EscapeChar(c)| <= |chars| && chars[i..i + |EscapeChar(c)|] == EscapeChar(c)
    ensures |EscapeChar(c)| >= 2 ==> EscapeAt(chars, i + 1, env) == Some(([c], i + |EscapeChar(c)|))
  {
    var e := EscapeChar(c);
    if |e| == 4 {
      HexEscapeStep(chars, i, c, env);
    } else if |e| == 2 {
      assert chars[i + 1] == e[1];
    }
  }

  /** A control character below 256 without a named escape is read back from
      its two hexadecimal digits. */
  lemma HexEscapeStep(chars: WString, i: nat, c: WChar, env: StringEnv)
    requires !Plain(c) && |EscapeChar(c)| == 4 && i + 4 <= |chars| && chars[i..i + 4] == EscapeChar(c)
    ensures EscapeAt(chars, i + 1, env) == Some(([c], i + 4))
  {
    var e := EscapeChar(c);
    assert e == [W('\\'), W('x'), HexChar(c / 16, false), HexChar(c % 16, false)];
    assert chars[i + 1] == W('x');
    assert chars[i + 2..i + 4] == e[2..];
    HexPairValue(c);
    assert NumberEscape(chars, i + 2, 2, true) == Some(([c], i + 4));
  }

  /** Parsing the escape of one character yields that character. */
  lemma EscapeCharParses(chars: WString, i: nat, n: nat, c: WChar, acc: WString, env: StringEnv)
    requires n == i + |EscapeChar(c)| && n <= |chars| && chars[i..n] == EscapeChar(c)
    requires |acc| + 1 < env.capacity
    ensures ParseFrom(chars, i, acc, env) == ParseFrom(chars, n, acc + [c], env)
  {
    var e := EscapeChar(c);
    assert chars[i] == e[0];
    if !Plain(c) {
      EscapeCharStep(chars, i, c, env);
    }
  }

  /** What the model escapes, parseDataString gives back: the escape
      grammar round-trips every string short enough for the buffer. */
  lemma {:induction false} EscapeRoundTrip(chars: WString, i: nat, s: WString, acc: WString, env: StringEnv)
    requires i <= |chars| && chars[i..] == Escape(s) && |acc| + |s| < env.capacity
    ensures ParseFrom(chars, i, acc, env) == Some(acc + s)
    decreases |s|, 1
  {
    if |s| == 0 {
      ParseAtEnd(chars, i, acc, env);
      assert acc + s == acc;
    } else {
      EscapeRoundTripStep(chars, i, s, acc, env);
    }
  }

  lemma {:induction false} EscapeRoundTripStep(chars: WString, i: nat, s: WString, acc: WString, env: StringEnv)
    requires |s| > 0 && i <= |chars| && chars[i..] == Escape(s) && |acc| + |s| < env.capacity
    ensures ParseFrom(chars, i, acc, env) == Some(acc + s)
    decreases |s|, 0
  {
    var n := EscapeStep(chars, i, s, acc, env);
    var acc' := acc + [s[0]];
    assert |acc'| + |s[1..]| < env.capacity;
    EscapeRoundTrip(chars, n, s[1..], acc', env);
    FirstMoved(acc, s);
  }

  /** Moving the first character of `s` onto the accumulated text. */
  lemma FirstMoved<T>(acc: seq<T>, s: seq<T>)
    requires |s| > 0
    ensures acc + [s[0]] + s[1..] == acc + s
  {
    assert s == [s[0]] + s[1..];
  }

  lemma ParseAtEnd(chars: WString, i: nat, acc: WString, env: StringEnv)
    requires i == |chars| && |acc| < env.capacity
    ensures ParseFrom(chars, i, acc, env) == Some(acc)
  {
  }

  lemma EscapeStep(chars: WString, i: nat, s: WString, acc: WString, env: StringEnv) returns (n: nat)
    requires |s| > 0 && i <= |chars| && chars[i..] == Escape(s) && |acc| + |s| < env.capacity
    ensures n <= |chars| && chars[n..] == Escape(s[1..])
    ensures ParseFrom(chars, i, acc, env) == ParseFrom(chars, n, acc + [s[0]], env)
  {
    n := EscapeSplit(chars, i, s);
    EscapeCharParses(chars, i, n, s[0], acc, env);
  }

  /** Where the escape of the first character ends. */
  lemma EscapeSplit(chars: WString, i: nat, s: WString) returns (n: nat)
    requires |s| > 0 && i <= |chars| && chars[i..] == Escape(s)
    ensures n == i + |EscapeChar(s[0])| && n <= |chars|
    ensures chars[i..n] == EscapeChar(s[0]) && chars[n..] == Escape(s[1..])
  {
    var e := EscapeChar(s[0]);
    var rest := Escape(s[1..]);
    assert Escape(s) == e + rest;
    SliceSplit(chars, i, e, rest);
    n := i + |e|;
  }

  lemma SliceSplit(chars: WString, i: nat, e: WString, rest: WString)
    requires i <= |chars| && chars[i..] == e + rest
    ensures i + |e| <= |chars| && chars[i..i + |e|] == e && chars[i + |e|..] == rest
  {
    assert chars[i..][..|e|] == e;
    assert chars[i..][|e|..] == rest;
  }

  lemma ParseEscaped(s: WString, env: StringEnv)
    requires |s| < env.capacity
    ensures ParseDataString(Escape(s), env) == Some(s)
  {
    var chars := Escape(s);
    assert chars[0..] == chars;
    EscapeRoundTrip(chars, 0, s, [], env);
    assert [] + s == s;
  }

  /** A backslash sequence that parses advances the parse past it. */
  lemma EscapeAdvances(chars: WString, i: nat, acc: WString, env: StringEnv, sub: WString, next: nat)
    requires i < |chars| && chars[i] == W('\\') && |acc| + |sub| < env.capacity
    requires EscapeAt(chars, i + 1, env) == Some((sub, next))
    ensures next <= |chars| && ParseFrom(chars, i, acc, env) == ParseFrom(chars, next, acc + sub, env)
  {
  }

  /** "{name}" after a backslash substitutes the variable's value, and is
      refused when no scope defines the variable. */
  lemma BraceEscape(chars: WString, j: nat, env: StringEnv, name: WString)
    requires j + |name| + 1 < |chars| && chars[j] == W('{') && chars[j + 1..j + 1 + |name|] == name
    requires chars[j + 1 + |name|] == W('}') && W('}') !in name
    ensures LookupVariable(env.scopes, name).None? ==> VariableEscape(chars, j + 1, env).None?
    ensures LookupVariable(env.scopes, name).Some? ==>
      VariableEscape(chars, j + 1, env) == Some((LookupVariable(env.scopes, name).value, j + |name| + 2))
  {
    var k := j + 1 + |name|;
    ClosingBraceFound(chars, j + 1, name);
    VariableEscapeAt(chars, j + 1, k, env);
    assert chars[j + 1..k] == name;
    SameLookup(env.scopes, chars[j + 1..k], name);
  }

  lemma SameLookup(scopes: Scopes, a: WString, b: WString)
    requires a == b
    ensures LookupVariable(scopes, a) == LookupVariable(scopes, b)
  {
  }

  lemma VariableEscapeAt(chars: WString, from: nat, k: nat, env: StringEnv)
    requires from <= k < |chars| && FindFrom(chars, from, W('}')) == Some(k)
    ensures VariableEscape(chars, from, env)
      == if LookupVariable(env.scopes, chars[from..k]).None? then None
         else Some((LookupVariable(env.scopes, chars[from..k]).value, k + 1))
  {
  }

  /** The first '}' after a name free of braces is the one that ends it. */
  lemma ClosingBraceFound(chars: WString, from: nat, name: WString)
    requires from + |name| < |chars| && chars[from..from + |name|] == name
    requires chars[from + |name|] == W('}') && W('}') !in name
    ensures FindFrom(chars, from, W('}')) == Some(from + |name|)
  {
    forall m | from <= m < from + |name| ensures chars[m] != W('}') {
      assert chars[m] == name[m - from];
    }
    FindFromFirst(chars, from, W('}'), from + |name|);
  }

  lemma FindFromFirst(s: WString, from: nat, x: WChar, k: nat)
    requires from <= k < |s| && s[k] == x && forall m :: from <= m < k ==> s[m] != x
    ensures FindFrom(s, from, x) == Some(k)
  {
    var r := FindFrom(s, from, x);
    assert r.Some?;
  }

  lemma EscapeAtBrace(chars: WString, j: nat, env: StringEnv)
    requires j < |chars| && chars[j] == W('{')
    ensures EscapeAt(chars, j, env) == VariableEscape(chars, j + 1, env)
  {
  }

  /** Once a file has assigned a variable, "\{name}" stands for its value. */
  lemma AssignedVariableSubstitutes(env: StringEnv, name: WString, value: WString)
    requires |env.scopes| > 0 && W('}') !in name && |value| < env.capacity
    ensures ParseDataString([W('\\'), W('{')] + name + [W('}')], env.(scopes := AssignVariable(env.scopes, name, value))) == Some(value)
  {
    var empty: WString := [];
    assert empty + value == value;
    var env' := env.(scopes := AssignVariable(env.scopes, name, value));
    var chars := [W('\\'), W('{')] + name + [W('}')];
    assert chars[2..2 + |name|] == name;
    AssignThenLookup(env.scopes, name, value, [W('}')]);
    BraceEscape(chars, 1, env', name);
    EscapeAtBrace(chars, 1, env');
    assert EscapeAt(chars, 1, env') == Some((value, |chars|));
    EscapeAdvances(chars, 0, empty, env', value, |chars|);
    ParseAtEnd(chars, |chars|, value, env');
  }

  /** Unicode escapes are refused where Unicode is not allowed. */
  lemma NoUnicodeRefused(rest: WString, env: StringEnv)
    requires env.noUnicode && env.capacity > 0
    ensures ParseDataString([W('\\'), W('u')] + rest, env).None?
    ensures ParseDataString([W('\\'), W('U')] + rest, env).None?
  {
  }

  // ---------------------------------------------------------------------------
  // What parseDataString refuses, and the numeric escapes it reads
  // ---------------------------------------------------------------------------

  /** The letters after a backslash that introduce a numeric escape. */
  predicate NumericLetter(letter: WChar) {
    letter == W('o') || letter == W('u') || letter == W('U') || letter == W('x') || letter == W('X')
  }

  /** How many digits a numeric escape takes: three octal digits for `\o`,
      four and eight hexadecimal digits for `\u` and `\U`, two for `\x`. */
  function DigitCount(letter: WChar): nat {
    if letter == W('o') then 3 else if letter == W('u') then 4 else if letter == W('U') then 8 else 2
  }

  /** Whether a numeric escape's digits are hexadecimal (all but `\o`). */
  predicate HexLetter(letter: WChar) {
    letter != W('o')
  }

  /** A digit of the escape's base. */
  predicate DigitOf(c: WChar, hex: bool) {
    if hex then HexadecimalDigit(c).Some? else OctalDigit(c).Some?
  }

  /** A letter that starts no escape at all. */
  predicate UnknownEscape(c: WChar) {
    && c != W('#') && c != W('\\') && ControlEscape(c).None? && !NumericLetter(c)
    && c != W('{') && c != W('<')
  }

  /** Parsing a string that starts with an escaped string `s` and then has a
      backslash: the text of `s` is produced, then the escape after the
      backslash decides. */
  lemma ParseAfterEscaped(s: WString, letter: WChar, tail: WString, env: StringEnv)
    requires env.capacity > 0
    ensures var chars := Escape(s) + [W('\\'), letter] + tail;
      var j := |Escape(s)| + 1;
      var step := EscapeAt(chars, j, env);
      && j < |chars| && chars[j] == letter && chars[j + 1..] == tail
      && (|s| >= env.capacity || step.None? ==> ParseDataString(chars, env) == None)
      && (|s| < env.capacity && step.Some? && |s| + |step.value.0| >= env.capacity ==>
            ParseDataString(chars, env) == None)
      && (|s| < env.capacity && step.Some? && |s| + |step.value.0| < env.capacity ==>
            ParseDataString(chars, env) == ParseFrom(chars, step.value.1, s + step.value.0, env))
  {
    var chars := Escape(s) + [W('\\'), letter] + tail;
    var i0 := |Escape(s)|;
    assert chars[0..i0] == Escape(s);
    assert chars[i0 + 2..] == tail;
    EscapedPrefix(chars, 0, s, [], env);
    assert [] + s == s;
  }

  /** Parsing runs through the escape of `s`: it has produced `s` after it,
      or has already failed for want of room. */
  lemma {:induction false} EscapedPrefix(chars: WString, i: nat, s: WString, acc: WString, env: StringEnv)
    requires i + |Escape(s)| <= |chars| && chars[i..i + |Escape(s)|] == Escape(s) && |acc| < env.capacity
    ensures |acc| + |s| < env.capacity ==> ParseFrom(chars, i, acc, env) == ParseFrom(chars, i + |Escape(s)|, acc + s, env)
    ensures |acc| + |s| >= env.capacity ==> ParseFrom(chars, i, acc, env) == None
    decreases |s|
  {
    if |s| == 0 {
      assert acc + s == acc;
    } else {
      var n := EscapedSplit(chars, i, s);
      if |acc| + 1 < env.capacity {
        EscapeCharParses(chars, i, n, s[0], acc, env);
        EscapedPrefix(chars, n, s[1..], acc + [s[0]], env);
        FirstMoved(acc, s);
      } else {
        EscapeCharFull(chars, i, n, s[0], acc, env);
      }
    }
  }

  /** Where the escape of the first character of `s` ends, inside a longer
      string. */
  lemma EscapedSplit(chars: WString, i: nat, s: WString) returns (n: nat)
    requires |s| > 0 && i + |Escape(s)| <= |chars| && chars[i..i + |Escape(s)|] == Escape(s)
    ensures n == i + |EscapeChar(s[0])| && n + |Escape(s[1..])| == i + |Escape(s)|
    ensures chars[i..n] == EscapeChar(s[0]) && chars[n..n + |Escape(s[1..])|] == Escape(s[1..])
  {
    var e := EscapeChar(s[0]);
    var tail := Escape(s[1..]);
    assert Escape(s) == e + tail;
    SubSplit(chars, i, e, tail);
    n := i + |e|;
  }

  lemma SubSplit(chars: WString, i: nat, e: WString, rest: WString)
    requires i + |e + rest| <= |chars| && chars[i..i + |e + rest|] == e + rest
    ensures chars[i..i + |e|] == e && chars[i + |e|..i + |e| + |rest|] == rest
  {
    assert chars[i..i + |e|] == chars[i..i + |e + rest|][..|e|];
    assert chars[i + |e|..i + |e| + |rest|] == chars[i..i + |e + rest|][|e|..];
  }

  /** One more character where the buffer has room for none fails. */
  lemma EscapeCharFull(chars: WString, i: nat, n: nat, c: WChar, acc: WString, env: StringEnv)
    requires n == i + |EscapeChar(c)| && n <= |chars| && chars[i..n] == EscapeChar(c)
    requires |acc| < env.capacity <= |acc| + 1
    ensures ParseFrom(chars, i, acc, env) == None
  {
    var e := EscapeChar(c);
    assert chars[i] == e[0];
    if !Plain(c) {
      EscapeCharStep(chars, i, c, env);
    }
  }

  /** A backslash before a letter that starts no escape makes the whole
      string fail. */
  lemma UnknownEscapeRefused(s: WString, c: WChar, rest: WString, env: StringEnv)
    requires env.capacity > 0 && UnknownEscape(c)
    ensures ParseDataString(Escape(s) + [W('\\'), c] + rest, env) == None
  {
    ParseAfterEscaped(s, c, rest, env);
  }

  /** `\{` with no `}` after it makes the whole string fail. */
  lemma UnclosedBraceRefused(s: WString, rest: WString, env: StringEnv)
    requires env.capacity > 0 && W('}') !in rest
    ensures ParseDataString(Escape(s) + [W('\\'), W('{')] + rest, env) == None
  {
    ParseAfterEscaped(s, W('{'), rest, env);
    var chars := Escape(s) + [W('\\'), W('{')] + rest;
    var j := |Escape(s)| + 1;
    forall k | j + 1 <= k < |chars| ensures chars[k] != W('}') {
      assert chars[k] == rest[k - (j + 1)];
    }
    NoCloser(chars, j + 1, W('}'));
  }

  lemma NoCloser(s: WString, from: nat, x: WChar)
    requires from <= |s| && forall k :: from <= k < |s| ==> s[k] != x
    ensures FindFrom(s, from, x).None?
  {
  }

  /** A run of digits that holds a character of another kind has no value. */
  lemma {:induction false} RunValueNonDigit(ds: WString, hex: bool, k: nat)
    requires k < |ds| && !DigitOf(ds[k], hex)
    ensures RunValue(ds, hex).None?
    decreases |ds|
  {
    if k < |ds| - 1 {
      var init := ds[..|ds| - 1];
      assert init[k] == ds[k];
      RunValueNonDigit(init, hex, k);
    }
  }

  /** The escape of a numeric letter: refused for `\u` and `\U` where
      Unicode is not allowed, otherwise read from the digits that follow. */
  lemma NumericEscapeAt(chars: WString, j: nat, env: StringEnv)
    requires j < |chars| && NumericLetter(chars[j])
    ensures (chars[j] == W('u') || chars[j] == W('U')) && env.noUnicode ==> EscapeAt(chars, j, env).None?
    ensures !((chars[j] == W('u') || chars[j] == W('U')) && env.noUnicode) ==>
      EscapeAt(chars, j, env) == NumberEscape(chars, j + 1, DigitCount(chars[j]), HexLetter(chars[j]))
  {
  }

  /** Digits that stop short of `count` give no numeric escape. */
  lemma ShortRunNone(chars: WString, from: nat, count: nat, hex: bool, ds: WString, rest: WString)
    requires from <= |chars| && chars[from..] == ds + rest && |ds| < count
    requires rest == [] || !DigitOf(rest[0], hex)
    ensures NumberEscape(chars, from, count, hex).None?
  {
    if from + count <= |chars| {
      var run := chars[from..from + count];
      assert run[|ds|] == rest[0] by { assert run == (ds + rest)[..count]; }
      RunValueNonDigit(run, hex, |ds|);
    }
  }

  /** Exactly `|ds|` digits give the escape of their value, when it is at
      most WCHAR_MAX, and nothing when it is larger. */
  lemma FullRun(chars: WString, from: nat, hex: bool, ds: WString, rest: WString)
    requires from <= |chars| && chars[from..] == ds + rest && RunValue(ds, hex).Some?
    ensures RunValue(ds, hex).value <= WcharMax ==>
      NumberEscape(chars, from, |ds|, hex) == Some(([RunValue(ds, hex).value], from + |ds|))
    ensures RunValue(ds, hex).value > WcharMax ==> NumberEscape(chars, from, |ds|, hex).None?
  {
    assert chars[from..from + |ds|] == ds by { assert chars[from..from + |ds|] == (ds + rest)[..|ds|]; }
  }

  /** A numeric escape whose digits stop short of the count it needs, at a
      character of another kind or at the end of the string, makes the whole
      string fail. */
  lemma ShortNumberRefused(s: WString, letter: WChar, ds: WString, rest: WString, env: StringEnv)
    requires env.capacity > 0 && NumericLetter(letter) && |ds| < DigitCount(letter)
    requires rest == [] || !DigitOf(rest[0], HexLetter(letter))
    ensures ParseDataString(Escape(s) + [W('\\'), letter] + (ds + rest), env) == None
  {
    var tail := ds + rest;
    ParseAfterEscaped(s, letter, tail, env);
    var chars := Escape(s) + [W('\\'), letter] + tail;
    var j := |Escape(s)| + 1;
    NumericEscapeAt(chars, j, env);
    ShortRunNone(chars, j + 1, DigitCount(letter), HexLetter(letter), ds, rest);
  }

  /** `\U` with a value above WCHAR_MAX makes the whole string fail. */
  lemma WideValueRefused(s: WString, ds: WString, rest: WString, env: StringEnv)
    requires env.capacity > 0 && |ds| == 8
    requires RunValue(ds, true).Some? && RunValue(ds, true).value > WcharMax
    ensures ParseDataString(Escape(s) + [W('\\'), W('U')] + (ds + rest), env) == None
  {
    var tail := ds + rest;
    ParseAfterEscaped(s, W('U'), tail, env);
    var chars := Escape(s) + [W('\\'), W('U')] + tail;
    var j := |Escape(s)| + 1;
    NumericEscapeAt(chars, j, env);
    FullRun(chars, j + 1, true, ds, rest);
  }

  /** A numeric escape with all its digits stands for their value, when that
      is at most WCHAR_MAX and Unicode escapes are allowed for `\u` and
      `\U`; the escaped text around it is read as usual. */
  lemma NumberEscapeParses(s: WString, letter: WChar, ds: WString, t: WString, env: StringEnv)
    requires NumericLetter(letter) && |ds| == DigitCount(letter)
    requires (letter == W('u') || letter == W('U')) ==> !env.noUnicode
    requires RunValue(ds, HexLetter(letter)).Some? && RunValue(ds, HexLetter(letter)).value <= WcharMax
    requires |s| + 1 + |t| < env.capacity
    ensures ParseDataString(Escape(s) + [W('\\'), letter] + (ds + Escape(t)), env)
      == Some(s + [RunValue(ds, HexLetter(letter)).value] + t)
  {
    var v := RunValue(ds, HexLetter(letter)).value;
    var tail := ds + Escape(t);
    ParseAfterEscaped(s, letter, tail, env);
    var chars := Escape(s) + [W('\\'), letter] + tail;
    var j := |Escape(s)| + 1;
    var next := j + 1 + |ds|;
    NumericEscapeAt(chars, j, env);
    FullRun(chars, j + 1, HexLetter(letter), ds, Escape(t));
    assert EscapeAt(chars, j, env) == Some(([v], next));
    assert chars[next..] == Escape(t) by {
      assert chars[next..] == chars[j + 1..][|ds|..];
      assert tail[|ds|..] == Escape(t);
    }
    EscapedTail(chars, next, t, s + [v], env);
  }

  /** Parsing the escape of `t` that ends the string produces `t`. */
  lemma EscapedTail(chars: WString, i: nat, t: WString, acc: WString, env: StringEnv)
    requires i <= |chars| && chars[i..] == Escape(t) && |acc| + |t| < env.capacity
    ensures ParseFrom(chars, i, acc, env) == Some(acc + t)
  {
    assert chars[i..i + |Escape(t)|] == Escape(t);
    EscapedPrefix(chars, i, t, acc, env);
    ParseAtEnd(chars, |chars|, acc + t, env);
  }

}
