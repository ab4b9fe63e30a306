/**
  Configuration files: kconfig_print_symbol, conf_set_sym_val and conf_read_simple of confdata.c with the
  user values as target, and sym_string_valid of symbol.c.
 */
module ConfFiles {
  import opened Tristates
  import opened Exprs
  import opened Configs
  import opened Settings
  import opened Escaping

  /** CONFIG_, and the symbol table as the reader uses it: sym_find and the types. */
  datatype Names = Names(prefix: string, find: string -> Option<nat>, types: seq<SymbolType>)

  // ------------------------------------------------------------------ numbers

  predicate IsDigit(c: char) {
    '0' <= c <= '9'
  }

  predicate IsHexDigit(c: char) {
    IsDigit(c) || 'a' <= c <= 'f' || 'A' <= c <= 'F'
  }

  predicate AllDigits(d: string) {
    forall k :: 0 <= k < |d| ==> IsDigit(d[k])
  }

  predicate AllHex(d: string) {
    forall k :: 0 <= k < |d| ==> IsHexDigit(d[k])
  }

  /** sym_string_valid for int: an optional sign, digits, and no leading zero. */
  predicate ValidInt(s: string) {
    var d := if s != [] && s[0] == '-' then s[1..] else s;
    d != [] && (d[0] == '0' ==> |d| == 1) && AllDigits(d)
  }

  /** What follows an optional 0x. */
  function HexBody(s: string): string {
    if |s| >= 2 && s[0] == '0' && (s[1] == 'x' || s[1] == 'X') then s[2..] else s
  }

  /** sym_string_valid for hex: an optional 0x and at least one digit. */
  predicate ValidHex(s: string) {
    HexBody(s) != [] && AllHex(HexBody(s))
  }

  predicate ValidText(ty: SymbolType, s: string) {
    match ty
    case Text => true
    case Integer => ValidInt(s)
    case Hexadecimal => ValidHex(s)
    case _ => false
  }

  const DIGITS := "0123456789"

  /** n in decimal. */
  function Decimal(n: nat): (s: string)
    ensures |s| >= 1
  {
    if n < 10 then [DIGITS[n]] else Decimal(n / 10) + [DIGITS[n % 10]]
  }

  lemma DigitIs(c: char)
    ensures IsDigit(c) <==> c in DIGITS
    ensures IsDigit(c) ==> 0 <= (c - '0') as int < 10 && DIGITS[(c - '0') as int] == c
  {
  }

  /** Digits without a leading zero spell a number. */
  lemma {:induction false} DigitsAreDecimal(d: string) returns (n: nat)
    requires d != [] && AllDigits(d) && (d[0] == '0' ==> |d| == 1)
    ensures d == Decimal(n) && (|d| > 1 ==> n >= 1) && (d != "0" ==> n >= 1)
    decreases |d|
  {
    var c := d[|d| - 1];
    var x: nat := (c - '0') as int;
    DigitIs(c);
    if |d| == 1 {
      n := x;
    } else {
      var front := d[..|d| - 1];
      assert d == front + [c] && front[0] == d[0];
      var m := DigitsAreDecimal(front);
      n := 10 * m + x;
      assert n / 10 == m && n % 10 == x && n >= 10;
    }
  }

  lemma {:induction false} DecimalDigits(n: nat)
    ensures AllDigits(Decimal(n)) && (Decimal(n)[0] == '0' ==> n == 0) && (n == 0 ==> Decimal(n) == "0")
    ensures n < 10 ==> |Decimal(n)| == 1
  {
    DigitIs(DIGITS[n % 10]);
    if n >= 10 {
      DecimalDigits(n / 10);
      assert Decimal(n)[0] == Decimal(n / 10)[0];
    }
  }

  lemma PlainNumber(d: string)
    ensures d != [] && AllDigits(d) && (d[0] == '0' ==> |d| == 1) <==> exists n: nat :: d == Decimal(n)
  {
    if d != [] && AllDigits(d) && (d[0] == '0' ==> |d| == 1) {
      var n := DigitsAreDecimal(d);
      assert d == Decimal(n);
    }
    if n: nat :| d == Decimal(n) { DecimalDigits(n); }
  }

  /** An int is a number in decimal, with or without a minus sign, and nothing else. */
  lemma ValidIntExact(s: string)
    ensures ValidInt(s) <==> exists n: nat :: s == Decimal(n) || s == "-" + Decimal(n)
  {
    if s != [] && s[0] == '-' {
      PlainNumber(s[1..]);
      if ValidInt(s) {
        var n: nat :| s[1..] == Decimal(n);
        assert s == "-" + Decimal(n);
      }
      if n: nat :| s == Decimal(n) || s == "-" + Decimal(n) {
        DecimalDigits(n);
        assert IsDigit(Decimal(n)[0]);
        assert s[1..] == Decimal(n);
      }
    } else {
      PlainNumber(s);
      forall n: nat ensures s != "-" + Decimal(n) {
        assert ("-" + Decimal(n))[0] == '-';
      }
    }
  }

  const HEXDIGITS := "0123456789abcdefABCDEF"

  lemma HexDigitIs(c: char)
    ensures IsHexDigit(c) <==> c in HEXDIGITS
  {
    var d := HEXDIGITS;
    assert d[0] == '0' && d[1] == '1' && d[2] == '2' && d[3] == '3' && d[4] == '4' && d[5] == '5';
    assert d[6] == '6' && d[7] == '7' && d[8] == '8' && d[9] == '9' && d[10] == 'a' && d[11] == 'b';
    assert d[12] == 'c' && d[13] == 'd' && d[14] == 'e' && d[15] == 'f' && d[16] == 'A' && d[17] == 'B';
    assert d[18] == 'C' && d[19] == 'D' && d[20] == 'E' && d[21] == 'F';
  }

  /** A hex number is at least one hexadecimal digit of either case, with or without 0x. */
  lemma ValidHexExact(s: string)
    ensures ValidHex(s) <==> exists d :: IsHexBody(s, d)
  {
    forall c ensures IsHexDigit(c) <==> c in HEXDIGITS {
      HexDigitIs(c);
    }
    WithoutPrefix(s);
    if d: string :| IsHexBody(s, d) { OnlyBody(s, d); }
  }

  /** s is the digits d, with or without 0x. */
  predicate IsHexBody(s: string, d: string) {
    d != [] && (s == d || s == "0x" + d || s == "0X" + d) && forall c :: c in d ==> c in HEXDIGITS
  }

  lemma WithoutPrefix(s: string)
    ensures HexBody(s) == s || s == "0x" + HexBody(s) || s == "0X" + HexBody(s)
    ensures ValidHex(s) ==> IsHexBody(s, HexBody(s))
  {
    forall c ensures IsHexDigit(c) <==> c in HEXDIGITS {
      HexDigitIs(c);
    }
    if |s| >= 2 && s[0] == '0' { assert s == [s[0], s[1]] + s[2..]; }
  }

  lemma OnlyBody(s: string, d: string)
    requires IsHexBody(s, d)
    ensures HexBody(s) == d
  {
    assert ("0x" + d)[2..] == d && ("0X" + d)[2..] == d;
    HexDigitIs('x');
    HexDigitIs('X');
    if s == d && |s| >= 2 { assert s[1] in d; }
  }

  // ------------------------------------------------------------------ reading

  /** The position of c in s, or the length. */
  function Find(s: string, c: char): (k: nat)
    ensures k <= |s| && (k < |s| ==> s[k] == c) && forall i :: 0 <= i < k ==> s[i] != c
  {
    if s == [] || s[0] == c then 0
    else
      var k := Find(s[1..], c);
      assert forall i :: 1 <= i < k + 1 ==> s[i] == s[1..][i - 1];
      k + 1
  }

  lemma FindUnique(s: string, c: char, k: nat)
    requires k < |s| && s[k] == c && forall i :: 0 <= i < k ==> s[i] != c
    ensures Find(s, c) == k
  {
  }

  lemma FindNone(s: string, c: char)
    requires forall i :: 0 <= i < |s| ==> s[i] != c
    ensures Find(s, c) == |s|
  {
  }

  predicate StartsWith(s: string, p: string) {
    |p| <= |s| && s[..|p|] == p
  }

  lemma AfterStart(s: string, p: string)
    requires StartsWith(s, p)
    ensures s == p + s[|p|..]
  {
  }

  lemma StartOfConcat(p: string, s: string)
    ensures StartsWith(p + s, p) && (p + s)[|p|..] == s
  {
  }

  lemma DropTwice(s: string, i: nat, j: nat)
    requires i + j <= |s|
    ensures s[i..][j..] == s[i + j..]
  {
  }

  /** conf_set_sym_val: the user value that the text p gives a symbol of type ty, None if it is refused. */
  function ParseValue(ty: SymbolType, p: string): Option<Value> {
    match ty
    case Trivalued => if StartsWith(p, "m") then Some(Value(Mod, "")) else ParseBool(p)
    case Boolean => ParseBool(p)
    case Text =>
      if !StartsWith(p, "\"") then None
      else (match Unescape(p[1..]) case None => None case Some(s) => Some(Value(No, s)))
    case Integer => if ValidInt(p) then Some(Value(No, p)) else None
    case Hexadecimal => if ValidHex(p) then Some(Value(No, p)) else None
    case Unknown => None
    case Foreign => None
  }

  function ParseBool(p: string): Option<Value> {
    if StartsWith(p, "y") then Some(Value(Yes, ""))
    else if StartsWith(p, "n") then Some(Value(No, ""))
    else None
  }

  /** The text of a value: the line after = without its end. */
  function LineValue(p: string): string {
    var q := Find(p, '\n');
    if q == |p| then p
    else if q > 0 && p[q - 1] == '\r' then p[..q - 1]
    else p[..q]
  }

  const UNSET := "is not set"

  /** One line: the symbol it sets and the user value, None if it sets nothing. */
  function ReadLine(n: Names, line: string): Option<(nat, Value)> {
    if StartsWith(line, "#") then ReadComment(n, line)
    else if StartsWith(line, n.prefix) then ReadAssignment(n, line[|n.prefix|..])
    else None
  }

  function ReadComment(n: Names, line: string): Option<(nat, Value)> {
    if |line| < 2 || !StartsWith(line[2..], n.prefix) then None
    else
      var rest := line[2 + |n.prefix|..];
      var k := Find(rest, ' ');
      if k == |rest| || !StartsWith(rest[k + 1..], UNSET) then None
      else
        match n.find(rest[..k])
        case None => None
        case Some(i) => if i < |n.types| && IsLogicalType(n.types[i]) then Some((i, Value(No, ""))) else None
  }

  function ReadAssignment(n: Names, rest: string): Option<(nat, Value)> {
    var k := Find(rest, '=');
    if k == |rest| then None
    else
      match n.find(rest[..k])
      case None => None
      case Some(i) =>
        if i >= |n.types| then None
        else (match ParseValue(n.types[i], LineValue(rest[k + 1..])) case None => None case Some(v) => Some((i, v)))
  }

  function Apply1(user: User, r: Option<(nat, Value)>): User {
    match r
    case None => user
    case Some(p) => if p.0 < |user| then user[p.0 := Some(p.1)] else user
  }

  /** The lines of a file, as compat_getline splits it. */
  function ReadText(n: Names, text: string, user: User): (r: User)
    ensures |r| == |user|
    decreases |text|
  {
    if text == [] then user
    else
      var k := Find(text, '\n');
      var end := if k < |text| then k + 1 else k;
      ReadText(n, text[end..], Apply1(user, ReadLine(n, text[..end])))
  }

  /** conf_read_simple: all user values are dropped, then every line is read. */
  method ReadSimple(n: Names, text: string, count: nat) returns (user: User)
    ensures user == ReadText(n, text, seq(count, i => None))
  {
    user := seq(count, i => None);
    ghost var start := user;
    var p := 0;
    assert text[0..] == text;
    while p < |text|
      invariant 0 <= p <= |text|
      invariant ReadText(n, text[p..], user) == ReadText(n, text, start)
    {
      p, user := ReadNext(n, text, p, user);
    }
  }

  /** The body of the loop: one line. */
  method ReadNext(n: Names, text: string, p: nat, user: User) returns (p': nat, user': User)
    requires p < |text|
    ensures p < p' <= |text| && ReadText(n, text[p'..], user') == ReadText(n, text[p..], user)
  {
    var line := GetLine(text, p);
    p' := p + |line|;
    user' := Apply1(user, ReadLine(n, line));
    Split(n, text, p, p', line, user, user');
  }

  /** compat_getline: from p up to and including the next newline, or to the end. */
  method GetLine(text: string, p: nat) returns (line: string)
    requires p < |text|
    ensures 0 < |line| <= |text| - p && line == text[p..p + |line|]
    ensures forall k :: 0 <= k < |line| - 1 ==> line[k] != '\n'
    ensures line[|line| - 1] == '\n' || p + |line| == |text|
  {
    line := "";
    var q := p;
    while q < |text|
      invariant p <= q <= |text| && line == text[p..q] && forall k :: 0 <= k < |line| ==> line[k] != '\n'
    {
      line := line + [text[q]];
      q := q + 1;
      if text[q - 1] == '\n' {
        return;
      }
    }
  }

  lemma Split(n: Names, text: string, p: nat, p': nat, line: string, user: User, user': User)
    requires p < p' <= |text| && line == text[p..p'] && (line[|line| - 1] == '\n' || p' == |text|)
    requires forall k :: 0 <= k < |line| - 1 ==> line[k] != '\n'
    requires user' == Apply1(user, ReadLine(n, line))
    ensures ReadText(n, text[p'..], user') == ReadText(n, text[p..], user)
  {
    var t := text[p..];
    assert line == t[..|line|] && t[|line|..] == text[p'..];
    LineEnd(t, line);
    ReadFirst(n, t, |line|, user);
  }

  /** line is the first line of t. */
  lemma LineEnd(t: string, line: string)
    requires line != [] && |line| <= |t| && line == t[..|line|]
    requires line[|line| - 1] == '\n' || |line| == |t|
    requires forall k :: 0 <= k < |line| - 1 ==> line[k] != '\n'
    ensures var k := Find(t, '\n'); |line| == if k < |t| then k + 1 else k
  {
    if line[|line| - 1] == '\n' {
      assert forall k :: 0 <= k < |line| ==> t[k] == line[k];
      FindUnique(t, '\n', |line| - 1);
    } else {
      assert t == line;
      FindNone(t, '\n');
    }
  }

  lemma ReadFirst(n: Names, t: string, end: nat, user: User)
    requires t != [] && end <= |t| && (var k := Find(t, '\n'); end == if k < |t| then k + 1 else k)
    ensures ReadText(n, t, user) == ReadText(n, t[end..], Apply1(user, ReadLine(n, t[..end])))
  {
  }

  // ------------------------------------------------------------------ printing

  /** kconfig_print_symbol, with values of strings quoted as conf_write_symbol does. */
  function PrintSymbol(prefix: string, name: string, ty: SymbolType, value: string): string {
    if IsLogicalType(ty) && value == "n" then "# " + prefix + name + " " + UNSET + "\n"
    else prefix + name + "=" + (if ty == Text then Escape(value) else value) + "\n"
  }

  predicate NoneOf(s: string, bad: string) {
    forall k :: 0 <= k < |s| ==> s[k] !in bad
  }

  /** Names that the file format can carry. */
  predicate ValidName(prefix: string, name: string) {
    NoneOf(name, " =\n") && NoneOf(prefix, " =\n") && !StartsWith(prefix + name, "#")
  }

  /** Values that can stand in a file as those of a symbol of type ty. */
  predicate Printable(ty: SymbolType, v: Value) {
    match ty
    case Boolean => v.tri != Mod && v.text == ""
    case Trivalued => v.text == ""
    case Text => v.tri == No && NoneOf(v.text, "\n\0")
    case _ => v.tri == No && ValidText(ty, v.text)
  }

  /** The text that stands for a value. */
  function ValueText(ty: SymbolType, v: Value): string {
    if IsLogicalType(ty) then TristateText(v.tri) else v.text
  }

  lemma DigitsChars(s: string, skip: nat, d: string)
    requires skip <= |s| && d == s[skip..] && AllHex(d)
    requires forall k :: 0 <= k < skip ==> s[k] != '\n' && s[k] != '\r'
    ensures NoneOf(s, "\n\r")
  {
    forall k | 0 <= k < |s| ensures s[k] != '\n' && s[k] != '\r' {
      if k >= skip { assert IsHexDigit(d[k - skip]); }
    }
  }

  lemma ValidNumberChars(ty: SymbolType, s: string)
    requires (ty == Integer || ty == Hexadecimal) && ValidText(ty, s)
    ensures s != [] && NoneOf(s, "\n\r")
  {
    if ty == Integer {
      var d := if s != [] && s[0] == '-' then s[1..] else s;
      assert AllDigits(d);
      DigitsChars(s, |s| - |d|, d);
    } else {
      DigitsChars(s, |s| - |HexBody(s)|, HexBody(s));
    }
  }

  lemma {:induction false} EscapeBodyNewline(s: string)
    requires NoneOf(s, "\n")
    ensures NoneOf(EscapeBody(s), "\n")
  {
    if s != [] { EscapeBodyNewline(s[1..]); }
  }

  lemma ConcatNoneOf(a: string, b: string, bad: string)
    ensures NoneOf(a + b, bad) <==> NoneOf(a, bad) && NoneOf(b, bad)
  {
    assert forall k :: 0 <= k < |a| ==> (a + b)[k] == a[k];
    assert forall k :: 0 <= k < |b| ==> (a + b)[|a| + k] == b[k];
  }

  lemma FindIn(a: string, c: char, b: string)
    requires c !in a
    ensures Find(a + [c] + b, c) == |a|
  {
    FindUnique(a + [c] + b, c, |a|);
  }

  lemma HashFirst(s: string)
    ensures StartsWith(s, "#") <==> s != [] && s[0] == '#'
  {
  }

  /** The comment line of an unset symbol is read as n. */
  lemma ReadUnset(n: Names, name: string, i: nat)
    requires ValidName(n.prefix, name) && n.find(name) == Some(i) && i < |n.types| && IsLogicalType(n.types[i])
    ensures ReadLine(n, "# " + n.prefix + name + " " + UNSET + "\n") == Some((i, Value(No, "")))
  {
    var rest := n.prefix + (name + ([' '] + (UNSET + "\n")));
    assert "# " + n.prefix + name + " " + UNSET + "\n" == "# " + rest;
    StartOfConcat("# ", rest);
    CommentText(n.prefix, name, "\n");
    UnsetIsRead(n, "# " + rest, name, "\n", i);
  }

  /** The part of an assignment line after the prefix. */
  lemma ReadRest(n: Names, name: string, i: nat, text: string)
    requires NoneOf(name, "=") && n.find(name) == Some(i) && i < |n.types|
    requires text != [] && NoneOf(text, "\n") && text[|text| - 1] != '\r'
    ensures ReadAssignment(n, name + ['='] + (text + "\n"))
            == match ParseValue(n.types[i], text) case None => None case Some(v) => Some((i, v))
  {
    var rest := name + ['='] + (text + "\n");
    FindIn(name, '=', text + "\n");
    assert rest[..|name|] == name && rest[|name| + 1..] == text + "\n";
    assert text + ['\n'] + [] == text + "\n";
    FindIn(text, '\n', []);
    assert (text + "\n")[..|text|] == text;
  }

  /** An assignment line is read as its value. */
  lemma ReadAssigned(n: Names, name: string, i: nat, text: string)
    requires ValidName(n.prefix, name) && n.find(name) == Some(i) && i < |n.types|
    requires text != [] && NoneOf(text, "\n") && text[|text| - 1] != '\r'
    ensures ReadLine(n, n.prefix + name + "=" + text + "\n")
            == match ParseValue(n.types[i], text) case None => None case Some(v) => Some((i, v))
  {
    var line := n.prefix + name + "=" + text + "\n";
    var rest := name + ['='] + (text + "\n");
    assert line == n.prefix + rest;
    HashFirst(n.prefix + name);
    HashFirst(line);
    assert line == (n.prefix + name) + ("=" + text + "\n");
    assert line[..|n.prefix|] == n.prefix && line[|n.prefix|..] == rest;
    ReadRest(n, name, i, text);
  }

  /** The value that the text after = stands for, by the type of the symbol. */
  predicate StandsFor(ty: SymbolType, text: string, v: Value) {
    match ty
    case Boolean => v.text == "" && IsLetter(text, v.tri) && v.tri != Mod
    case Trivalued => v.text == "" && IsLetter(text, v.tri)
    case Text => v.tri == No && text != "" && text[0] == '"' && Unescape(text[1..]) == Some(v.text)
    case Integer => v == Value(No, text) && ValidInt(text)
    case Hexadecimal => v == Value(No, text) && ValidHex(text)
    case _ => false
  }

  /** The text begins with the letter of x; what follows is not looked at. */
  predicate IsLetter(text: string, x: Tristate) {
    text != "" && text[0] == (match x case No => 'n' case Mod => 'm' case Yes => 'y')
  }

  lemma ParseExact(ty: SymbolType, text: string, v: Value)
    ensures ParseValue(ty, text) == Some(v) <==> StandsFor(ty, text, v)
  {
    assert text != "" ==> text[..1] == [text[0]];
  }

  /** The ends a line can have. */
  predicate IsEnd(text: string, end: string) {
    end == "" || end == "\r\n" || (end == "\n" && (text == "" || text[|text| - 1] != '\r'))
  }

  lemma ValueOfLine(text: string, end: string)
    requires NoneOf(text, "\n") && IsEnd(text, end)
    ensures LineValue(text + end) == text
  {
    var line := text + end;
    if end == "" {
      assert line == text;
      FindNone(text, '\n');
    } else {
      var q := |line| - 1;
      assert forall k :: 0 <= k < |text| ==> line[k] == text[k];
      assert line[q] == '\n';
      FindUnique(line, '\n', q);
      assert line[..|text|] == text;
    }
  }

  lemma RestIsRead(n: Names, name: string, i: nat, text: string, end: string, v: Value)
    requires NoneOf(name, "=") && n.find(name) == Some(i) && i < |n.types|
    requires NoneOf(text, "\n") && IsEnd(text, end)
    ensures var r := ReadAssignment(n, name + ['='] + (text + end));
            && (r == Some((i, v)) <==> StandsFor(n.types[i], text, v))
            && (r.Some? ==> r.value.0 == i)
  {
    var rest := name + ['='] + (text + end);
    FindIn(name, '=', text + end);
    assert rest[..|name|] == name && rest[|name| + 1..] == text + end;
    ValueOfLine(text, end);
    ParseExact(n.types[i], text, v);
  }

  /** An assignment line sets its symbol to the value that its text stands for, and is skipped if it stands for none. */
  lemma AssignmentIsRead(n: Names, name: string, i: nat, text: string, end: string, v: Value)
    requires ValidName(n.prefix, name) && n.find(name) == Some(i) && i < |n.types|
    requires NoneOf(text, "\n") && IsEnd(text, end)
    ensures var r := ReadLine(n, n.prefix + name + "=" + text + end);
            && (r == Some((i, v)) <==> StandsFor(n.types[i], text, v))
            && (r.Some? ==> r.value.0 == i)
  {
    var line, rest := n.prefix + name + "=" + text + end, name + ['='] + (text + end);
    AssignmentText(n.prefix, name, text, end);
    StartOfConcat(n.prefix, rest);
    NoHash(n.prefix, name, text, end);
    RestIsRead(n, name, i, text, end, v);
  }

  lemma AssignmentText(prefix: string, name: string, text: string, end: string)
    ensures prefix + name + "=" + text + end == prefix + (name + ['='] + (text + end))
  {
  }

  lemma NoHash(prefix: string, name: string, text: string, end: string)
    requires !StartsWith(prefix + name, "#")
    ensures !StartsWith(prefix + name + "=" + text + end, "#")
  {
    var line := prefix + name + "=" + text + end;
    HashFirst(prefix + name);
    HashFirst(line);
    assert line == (prefix + name) + ("=" + text + end);
  }

  /** line assigns to symbol i by name. */
  ghost predicate Assigns(n: Names, line: string, i: nat) {
    exists name, rest :: line == n.prefix + name + "=" + rest && '=' !in name
                         && n.find(name) == Some(i) && i < |n.types|
  }

  /** line says that the bool or tristate symbol i is not set. */
  ghost predicate Unsets(n: Names, line: string, i: nat) {
    exists name, rest :: IsUnset(n, line, name, rest, i)
  }

  predicate IsUnset(n: Names, line: string, name: string, rest: string, i: nat) {
    && |line| >= 2 && line[0] == '#' && line[2..] == n.prefix + name + " is not set" + rest && ' ' !in name
    && n.find(name) == Some(i) && i < |n.types| && (n.types[i] == Boolean || n.types[i] == Trivalued)
  }

  lemma CommentText(prefix: string, name: string, after: string)
    ensures prefix + (name + ([' '] + (UNSET + after))) == prefix + name + " is not set" + after
  {
    assert " is not set" == [' '] + UNSET;
  }

  lemma SplitAt(s: string, k: nat, c: char)
    requires k < |s| && s[k] == c
    ensures s == s[..k] + ([c] + s[k + 1..])
  {
  }

  lemma CommentSets(n: Names, line: string, i: nat, v: Value)
    requires line != "" && line[0] == '#' && ReadComment(n, line) == Some((i, v))
    ensures Unsets(n, line, i) && v == Value(No, "")
  {
    var rest := line[2 + |n.prefix|..];
    var k := Find(rest, ' ');
    var name, tail := rest[..k], rest[k + 1..];
    var after := tail[|UNSET|..];
    AfterStart(line[2..], n.prefix);
    DropTwice(line, 2, |n.prefix|);
    SplitAt(rest, k, ' ');
    AfterStart(tail, UNSET);
    CommentText(n.prefix, name, after);
    assert IsUnset(n, line, name, after, i);
  }

  lemma AssignmentSets(n: Names, line: string, rest: string, i: nat, v: Value)
    requires line == n.prefix + rest && ReadAssignment(n, rest) == Some((i, v))
    ensures Assigns(n, line, i)
  {
    var k := Find(rest, '=');
    var name, text := rest[..k], rest[k + 1..];
    SplitAt(rest, k, '=');
    AssignmentText(n.prefix, name, text, "");
    assert name + ['='] + (text + "") == name + (['='] + text);
    assert n.prefix + name + "=" + text + "" == n.prefix + name + "=" + text;
  }

  /** Only lines of these two forms set anything, and the second only to n. */
  lemma NothingElseIsRead(n: Names, line: string, i: nat, v: Value)
    requires ReadLine(n, line) == Some((i, v))
    ensures line != ""
    ensures if line[0] == '#' then Unsets(n, line, i) && v == Value(No, "") else Assigns(n, line, i)
  {
    HashFirst(line);
    if StartsWith(line, "#") {
      CommentSets(n, line, i, v);
    } else {
      assert line == n.prefix + line[|n.prefix|..];
      AssignmentSets(n, line, line[|n.prefix|..], i, v);
    }
  }

  /** And every line of the second form is read, whatever follows. */
  lemma UnsetIsRead(n: Names, line: string, name: string, rest: string, i: nat)
    requires IsUnset(n, line, name, rest, i)
    ensures ReadLine(n, line) == Some((i, Value(No, "")))
  {
    var end := UNSET + rest;
    var all := name + [' '] + end;
    HashFirst(line);
    assert " is not set" == [' '] + UNSET;
    assert line[2..] == n.prefix + all;
    assert line[2 + |n.prefix|..] == line[2..][|n.prefix|..] == all;
    assert line[2..][..|n.prefix|] == n.prefix;
    FindIn(name, ' ', end);
    assert all[..|name|] == name && all[|name| + 1..] == end && end[..|UNSET|] == UNSET;
  }

  /** The lines are read one after the other; each sets what it says and leaves everything else. */
  lemma LineByLine(n: Names, line: string, rest: string, user: User)
    requires NoneOf(line, "\n")
    ensures ReadText(n, line + "\n" + rest, user)
            == ReadText(n, rest, match ReadLine(n, line + "\n")
                                 case None => user
                                 case Some((i, v)) => if i < |user| then user[i := Some(v)] else user)
    ensures ReadText(n, "", user) == user
  {
    var l := line + "\n";
    var text := l + rest;
    assert text[0..] == text && l == text[0..|l|] && text[|l|..] == rest;
    assert forall k :: 0 <= k < |line| ==> l[k] == line[k];
    Split(n, text, 0, |l|, l, user, Apply1(user, ReadLine(n, l)));
  }

  /** What the lines of a file look like. */
  lemma PrintedForms(prefix: string, name: string, ty: SymbolType, v: Value)
    requires IsTyped(ty)
    ensures var line := PrintSymbol(prefix, name, ty, ValueText(ty, v));
            && (ty == Boolean || ty == Trivalued ==>
                  line == match v.tri
                          case No => "# " + prefix + name + " is not set\n"
                          case Mod => prefix + name + "=m\n"
                          case Yes => prefix + name + "=y\n")
            && (ty == Integer || ty == Hexadecimal ==> line == prefix + name + "=" + v.text + "\n")
            && (ty == Text ==> line == prefix + name + "=" + Escape(v.text) + "\n")
  {
    if (ty == Boolean || ty == Trivalued) && v.tri == No {
      assert " " + UNSET + "\n" == " is not set\n";
      assert "# " + prefix + name + " " + UNSET + "\n" == "# " + prefix + name + (" " + UNSET + "\n");
    } else if ty == Boolean || ty == Trivalued {
      assert prefix + name + "=" + TristateText(v.tri) + "\n" == prefix + name + ("=" + TristateText(v.tri) + "\n");
    }
  }

  /** What is written for a value. */
  function WrittenText(ty: SymbolType, v: Value): string {
    if ty == Text then Escape(v.text) else ValueText(ty, v)
  }

  lemma QuotedIsRead(text: string)
    requires NoneOf(text, "\n")
    ensures var w := Escape(text);
            NoneOf(w, "\n") && w[|w| - 1] == '"' && StartsWith(w, "\"") && Unescape(w[1..]) == Some(text)
  {
    var body := EscapeBody(text);
    EscapeBodyNewline(text);
    UnescapeEscape(text, []);
    assert body + "\"" + [] == Escape(text)[1..];
    assert Escape(text)[..1] == "\"";
    ConcatNoneOf("\"" + body, "\"", "\n");
    ConcatNoneOf("\"", body, "\n");
  }

  lemma WrittenTextIsRead(ty: SymbolType, v: Value)
    requires IsTyped(ty) && Printable(ty, v)
    ensures var w := WrittenText(ty, v);
            w != [] && NoneOf(w, "\n") && w[|w| - 1] != '\r' && ParseValue(ty, w) == Some(v)
  {
    if ty == Text {
      QuotedIsRead(v.text);
    } else if !IsLogicalType(ty) {
      ValidNumberChars(ty, v.text);
    }
  }

  /** Every printed line is read back as the value it was printed for. */
  lemma ReadPrinted(n: Names, name: string, i: nat, v: Value)
    requires ValidName(n.prefix, name) && n.find(name) == Some(i) && i < |n.types| && IsTyped(n.types[i])
    requires Printable(n.types[i], v)
    ensures ReadLine(n, PrintSymbol(n.prefix, name, n.types[i], ValueText(n.types[i], v))) == Some((i, v))
  {
    var ty := n.types[i];
    if IsLogicalType(ty) && v.tri == No {
      ReadUnset(n, name, i);
    } else {
      WrittenTextIsRead(ty, v);
      ReadAssigned(n, name, i, WrittenText(ty, v));
    }
  }

  /** A printed line ends with its only newline. */
  lemma PrintedIsLine(n: Names, name: string, ty: SymbolType, v: Value)
    requires ValidName(n.prefix, name) && IsTyped(ty) && Printable(ty, v)
    ensures var line := PrintSymbol(n.prefix, name, ty, ValueText(ty, v));
            line != [] && line[|line| - 1] == '\n' && NoneOf(line[..|line| - 1], "\n")
  {
    var line := PrintSymbol(n.prefix, name, ty, ValueText(ty, v));
    if IsLogicalType(ty) && v.tri == No {
      assert line[..|line| - 1] == "# " + n.prefix + name + " " + UNSET;
    } else {
      WrittenTextIsRead(ty, v);
      assert line[..|line| - 1] == n.prefix + name + "=" + WrittenText(ty, v);
    }
  }

  // ------------------------------------------------------------- whole files

  /** A line to be written: symbol, name and value. */
  datatype Line = Line(i: nat, name: string, v: Value)

  ghost predicate Writable(n: Names, x: Line) {
    && ValidName(n.prefix, x.name) && n.find(x.name) == Some(x.i) && x.i < |n.types|
    && IsTyped(n.types[x.i]) && Printable(n.types[x.i], x.v)
  }

  function PrintAll(n: Names, ls: seq<Line>): string
    requires forall k :: 0 <= k < |ls| ==> ls[k].i < |n.types|
  {
    if ls == [] then []
    else
      PrintSymbol(n.prefix, ls[0].name, n.types[ls[0].i], ValueText(n.types[ls[0].i], ls[0].v))
      + PrintAll(n, ls[1..])
  }

  /** The user values after the assignments ls. */
  function AssignAll(user: User, ls: seq<Line>): (r: User)
    requires forall k :: 0 <= k < |ls| ==> ls[k].i < |user|
    ensures |r| == |user|
    decreases |ls|
  {
    if ls == [] then user else AssignAll(user[ls[0].i := Some(ls[0].v)], ls[1..])
  }

  lemma ReadPrintStep(n: Names, x: Line, rest: string, user: User)
    requires |user| == |n.types| && Writable(n, x)
    ensures var line := PrintSymbol(n.prefix, x.name, n.types[x.i], ValueText(n.types[x.i], x.v));
            ReadText(n, line + rest, user) == ReadText(n, rest, user[x.i := Some(x.v)])
  {
    var line := PrintSymbol(n.prefix, x.name, n.types[x.i], ValueText(n.types[x.i], x.v));
    var text := line + rest;
    PrintedIsLine(n, x.name, n.types[x.i], x.v);
    ReadPrinted(n, x.name, x.i, x.v);
    assert text[0..] == text && line == text[0..|line|] && text[|line|..] == rest;
    assert forall k :: 0 <= k < |line| - 1 ==> line[k] == line[..|line| - 1][k];
    Split(n, text, 0, |line|, line, user, user[x.i := Some(x.v)]);
  }

  /** Reading a printed file makes exactly the assignments it was printed for. */
  lemma {:induction false} ReadPrintAll(n: Names, ls: seq<Line>, user: User)
    requires |user| == |n.types| && (forall k :: 0 <= k < |ls| ==> ls[k].i < |n.types|)
    requires (forall k :: 0 <= k < |ls| ==> Writable(n, ls[k]))
    ensures ReadText(n, PrintAll(n, ls), user) == AssignAll(user, ls)
    decreases |ls|
  {
    if ls != [] {
      assert Writable(n, ls[0]);
      ReadPrintStep(n, ls[0], PrintAll(n, ls[1..]), user);
      ReadPrintAll(n, ls[1..], user[ls[0].i := Some(ls[0].v)]);
    }
  }

  /** The last line of a symbol counts, and a symbol without a line keeps its value. */
  lemma {:induction false} LastLineCounts(user: User, ls: seq<Line>, i: nat)
    requires (forall k :: 0 <= k < |ls| ==> ls[k].i < |user|) && i < |user|
    ensures forall k :: IsLastLine(ls, k, i) ==> AssignAll(user, ls)[i] == Some(ls[k].v)
    ensures (forall k :: 0 <= k < |ls| ==> ls[k].i != i) ==> AssignAll(user, ls)[i] == user[i]
    decreases |ls|
  {
    if ls != [] {
      var user' := user[ls[0].i := Some(ls[0].v)];
      LastLineCounts(user', ls[1..], i);
      assert AssignAll(user, ls) == AssignAll(user', ls[1..]);
      forall k | IsLastLine(ls, k, i) ensures AssignAll(user, ls)[i] == Some(ls[k].v) {
        if k > 0 {
          assert IsLastLine(ls[1..], k - 1, i);
        } else {
          assert forall j :: 0 <= j < |ls[1..]| ==> ls[1..][j] == ls[j + 1];
        }
      }
    }
  }

  predicate IsLastLine(ls: seq<Line>, k: int, i: nat) {
    0 <= k < |ls| && ls[k].i == i && forall j :: k < j < |ls| ==> ls[j].i != i
  }

  ghost predicate DistinctLines(ls: seq<Line>) {
    forall j, k :: 0 <= j < k < |ls| ==> ls[j].i != ls[k].i
  }

  lemma {:induction false} AssignedOnce(user: User, ls: seq<Line>)
    requires DistinctLines(ls) && forall k :: 0 <= k < |ls| ==> ls[k].i < |user|
    ensures forall k :: 0 <= k < |ls| ==> AssignAll(user, ls)[ls[k].i] == Some(ls[k].v)
    ensures forall i :: 0 <= i < |user| && (forall k :: 0 <= k < |ls| ==> ls[k].i != i) ==>
              AssignAll(user, ls)[i] == user[i]
    decreases |ls|
  {
    if ls != [] {
      var user' := user[ls[0].i := Some(ls[0].v)];
      AssignedOnce(user', ls[1..]);
      assert AssignAll(user, ls) == AssignAll(user', ls[1..]);
      assert AssignAll(user', ls[1..])[ls[0].i] == user'[ls[0].i];
      forall k | 0 <= k < |ls| ensures AssignAll(user, ls)[ls[k].i] == Some(ls[k].v) {
        if k > 0 { assert ls[k] == ls[1..][k - 1]; }
      }
    }
  }

  /** Reading a printed file in which no symbol occurs twice gives each its value, and no value to any other. */
  lemma ReadPrintDistinct(n: Names, ls: seq<Line>)
    requires DistinctLines(ls) && forall k :: 0 <= k < |ls| ==> ls[k].i < |n.types|
    requires forall k :: 0 <= k < |ls| ==> Writable(n, ls[k])
    ensures var r := ReadText(n, PrintAll(n, ls), seq(|n.types|, i => None));
            && (forall k :: 0 <= k < |ls| ==> r[ls[k].i] == Some(ls[k].v))
            && (forall i :: 0 <= i < |n.types| && (forall k :: 0 <= k < |ls| ==> ls[k].i != i) ==> r[i] == None)
  {
    var none: User := seq(|n.types|, i => None);
    ReadPrintAll(n, ls, none);
    AssignedOnce(none, ls);
  }

  // ------------------------------------------------------ the full configuration

  /** The lines of conf_write: each symbol with SYMBOL_WRITE, once, in the order of the menu. */
  ghost predicate ConfigLines(t: Table, s: seq<Result>, ls: seq<Line>)
    requires |s| == |t.decls|
  {
    && DistinctLines(ls)
    && (forall k :: 0 <= k < |ls| ==> IsConfigLine(t, s, ls[k]))
    && forall i :: 0 <= i < |s| && InConfig(t, s, i) ==> exists k :: 0 <= k < |ls| && ls[k].i == i
  }

  predicate IsConfigLine(t: Table, s: seq<Result>, x: Line)
    requires |s| == |t.decls|
  {
    x.i < |s| && InConfig(t, s, x.i) && x == Line(x.i, t.decls[x.i].name, SavedValue(t, s[x.i], x.i))
  }

  /** Reading the lines of a full configuration sets each symbol that was written, and no other. */
  lemma ConfigReadsBack(n: Names, t: Table, s: seq<Result>, ls: seq<Line>)
    requires |s| == |t.decls| == |n.types| && ConfigLines(t, s, ls)
    requires forall k :: 0 <= k < |ls| ==> ls[k].i < |n.types|
    requires forall k :: 0 <= k < |ls| ==> Writable(n, ls[k])
    ensures ReadText(n, PrintAll(n, ls), seq(|s|, i => None)) == Stored(t, s)
  {
    ReadPrintDistinct(n, ls);
    var r := ReadText(n, PrintAll(n, ls), seq(|s|, i => None));
    forall i | 0 <= i < |s| ensures r[i] == Stored(t, s)[i] {
      if InConfig(t, s, i) {
        var k :| 0 <= k < |ls| && ls[k].i == i;
        assert IsConfigLine(t, s, ls[k]);
      } else {
        NoConfigLine(t, s, ls, i);
      }
    }
  }

  lemma NoConfigLine(t: Table, s: seq<Result>, ls: seq<Line>, i: nat)
    requires |s| == |t.decls| && ConfigLines(t, s, ls) && i < |s| && !InConfig(t, s, i)
    ensures forall k :: 0 <= k < |ls| ==> ls[k].i != i
  {
    forall k | 0 <= k < |ls| ensures ls[k].i != i {
      assert IsConfigLine(t, s, ls[k]);
    }
  }

  /**
    The lines of a full configuration, read back and evaluated, give the old configuration exactly when nothing
    is lost.
   */
  lemma SaveConfig(n: Names, t: Table, user: User, rank: seq<nat>, s: seq<Result>, ls: seq<Line>, s': seq<Result>)
    requires WellFormed(t) && Acyclic(t, rank) && Solution(t, user, s) && ConfigLines(t, s, ls)
    requires |n.types| == |s| && forall k :: 0 <= k < |ls| ==> ls[k].i < |n.types|
    requires forall k :: 0 <= k < |ls| ==> Writable(n, ls[k])
    requires Solution(t, ReadText(n, PrintAll(n, ls), seq(|s|, i => None)), s')
    ensures s' == s <==> forall i :: 0 <= i < |s| ==> !Lost(t, user, s, i)
  {
    ConfigReadsBack(n, t, s, ls);
    ConfigRoundTrip(t, user, rank, s, s');
  }

  // ------------------------------------------------------ the minimal configuration

  /** The line conf_write_defconfig writes for symbol i, if it writes one. */
  function DefconfigLine(t: Table, s: seq<Result>, i: nat): (ls: seq<Line>)
    requires i < |s| == |t.decls|
    ensures forall k :: 0 <= k < |ls| ==> ls[k].i == i
  {
    if Written(t, s, i) then [Line(i, t.decls[i].name, SavedValue(t, s[i], i))] else []
  }

  /**
    The lines conf_write_defconfig writes if the menu nodes ahead are those of the symbols ids. The symbols
    in done have been visited before and had their SYMBOL_WRITE cleared.
   */
  function DefconfigLines(t: Table, s: seq<Result>, ids: seq<nat>, done: set<nat>): (ls: seq<Line>)
    requires |s| == |t.decls| && forall k :: 0 <= k < |ids| ==> ids[k] < |s|
    ensures forall k :: 0 <= k < |ls| ==> ls[k].i < |s|
  {
    if ids == [] then []
    else if ids[0] in done then DefconfigLines(t, s, ids[1..], done)
    else DefconfigLine(t, s, ids[0]) + DefconfigLines(t, s, ids[1..], done + {ids[0]})
  }

  lemma {:induction false} AssignDefconfig(t: Table, s: seq<Result>, ids: seq<nat>, done: set<nat>, user: User, i: nat)
    requires |s| == |t.decls| == |user| && (forall k :: 0 <= k < |ids| ==> ids[k] < |s|) && i < |s|
    ensures var r := AssignAll(user, DefconfigLines(t, s, ids, done));
            r[i] == if i in ids && i !in done && Written(t, s, i) then Some(SavedValue(t, s[i], i)) else user[i]
    decreases |ids|
  {
    if ids != [] {
      var j := ids[0];
      if j in done {
        AssignDefconfig(t, s, ids[1..], done, user, i);
      } else {
        var user' := if Written(t, s, j) then user[j := Some(SavedValue(t, s[j], j))] else user;
        AssignDefconfig(t, s, ids[1..], done + {j}, user', i);
        if Written(t, s, j) {
          assert DefconfigLines(t, s, ids, done)[1..] == DefconfigLines(t, s, ids[1..], done + {j});
        } else {
          assert DefconfigLines(t, s, ids, done) == DefconfigLines(t, s, ids[1..], done + {j});
        }
      }
    }
  }

  /** x is in ids, outside done, for the first time at p. */
  predicate IsFirstAt(ids: seq<nat>, done: set<nat>, x: nat, p: int) {
    0 <= p < |ids| && ids[p] == x && x !in ids[..p] && x !in done
  }

  lemma FirstMoves(ids: seq<nat>, done: set<nat>, x: nat, p: int)
    requires ids != [] && IsFirstAt(ids[1..], done + {ids[0]}, x, p)
    ensures IsFirstAt(ids, done, x, p + 1)
  {
    assert ids[..p + 1] == [ids[0]] + ids[1..][..p];
  }

  /** The lines are one for the first symbol, or none, and those for the symbols after it. */
  lemma LinesSplit(t: Table, s: seq<Result>, ids: seq<nat>, done: set<nat>) returns (first: seq<Line>)
    requires |s| == |t.decls| && (forall k :: 0 <= k < |ids| ==> ids[k] < |s|) && ids != []
    ensures DefconfigLines(t, s, ids, done) == first + DefconfigLines(t, s, ids[1..], done + {ids[0]})
    ensures |first| <= 1 && (first != [] ==> first[0].i == ids[0] && IsFirstAt(ids, done, ids[0], 0))
  {
    if ids[0] in done {
      assert done + {ids[0]} == done;
      first := [];
    } else {
      first := DefconfigLine(t, s, ids[0]);
    }
  }

  /** The symbols of the lines come first at increasing places. */
  predicate InOrder(ids: seq<nat>, done: set<nat>, ls: seq<Line>, ps: seq<int>) {
    && |ps| == |ls|
    && (forall k :: 0 <= k < |ls| ==> IsFirstAt(ids, done, ls[k].i, ps[k]))
    && forall j, k :: 0 <= j < k < |ls| ==> ps[j] < ps[k]
  }

  lemma OrderMoves(ids: seq<nat>, done: set<nat>, first: seq<Line>, rest: seq<Line>, ps: seq<int>)
    returns (qs: seq<int>)
    requires ids != [] && InOrder(ids[1..], done + {ids[0]}, rest, ps)
    requires |first| <= 1 && (first != [] ==> first[0].i == ids[0] && IsFirstAt(ids, done, ids[0], 0))
    ensures InOrder(ids, done, first + rest, qs)
  {
    var moved := seq(|ps|, k requires 0 <= k < |ps| => ps[k] + 1);
    qs := (if first == [] then [] else [0]) + moved;
    forall k | 0 <= k < |rest| ensures IsFirstAt(ids, done, rest[k].i, moved[k]) && 0 < moved[k] {
      FirstMoves(ids, done, rest[k].i, ps[k]);
    }
  }

  /** Each symbol has at most one line, and the lines are in the order in which the symbols come first in the menu. */
  lemma {:induction false} DefconfigOrder(t: Table, s: seq<Result>, ids: seq<nat>, done: set<nat>)
    returns (ps: seq<int>)
    requires |s| == |t.decls| && (forall k :: 0 <= k < |ids| ==> ids[k] < |s|)
    ensures InOrder(ids, done, DefconfigLines(t, s, ids, done), ps)
    decreases |ids|
  {
    if ids == [] {
      ps := [];
    } else {
      var first := LinesSplit(t, s, ids, done);
      ps := DefconfigOrder(t, s, ids[1..], done + {ids[0]});
      ps := OrderMoves(ids, done, first, DefconfigLines(t, s, ids[1..], done + {ids[0]}), ps);
    }
  }

  /** n is the table's own view: types and the lookup of names. */
  ghost predicate NamesOf(n: Names, t: Table) {
    && n.types == seq(|t.decls|, i requires 0 <= i < |t.decls| => t.decls[i].ty)
    && forall i :: 0 <= i < |t.decls| && IsTyped(t.decls[i].ty) ==> NamedBy(n, t, i)
  }

  ghost predicate NamedBy(n: Names, t: Table, i: nat)
    requires i < |t.decls|
  {
    n.find(t.decls[i].name) == Some(i) && ValidName(n.prefix, t.decls[i].name)
  }

  /**
    User values of string, int and hex symbols are such as sym_set_string_value or the reader accept, and of
    one line.
   */
  ghost predicate UserPrintable(t: Table, user: User) {
    |user| == |t.decls| && forall i :: 0 <= i < |user| ==> TextPrintable(t.decls[i].ty, user[i])
  }

  predicate TextPrintable(ty: SymbolType, u: Option<Value>) {
    u.Some? && IsTyped(ty) && !IsLogicalType(ty) ==> Printable(ty, Value(No, u.value.text))
  }

  /** sprintf prints numbers that sym_string_valid accepts. */
  ghost predicate ShowsNumbers(t: Table) {
    forall x, ty :: ty == Integer || ty == Hexadecimal ==> ValidText(ty, t.show(x, ty))
  }

  /**
    A line that is written carries a value the file format can carry: a text that is written is the user's or
    a bound of a range.
   */
  lemma WrittenIsWritable(n: Names, t: Table, user: User, s: seq<Result>, i: nat)
    requires NamesOf(n, t) && Solution(t, user, s) && UserPrintable(t, user) && ShowsNumbers(t)
    requires i < |s| && Written(t, s, i)
    ensures Writable(n, Line(i, t.decls[i].name, SavedValue(t, s[i], i)))
  {
    assert NamedBy(n, t, i);
    assert TextPrintable(t.decls[i].ty, user[i]);
    TypedSolved(t, user, s, i);
  }

  lemma {:induction false} DefconfigWritable(n: Names, t: Table, user: User, s: seq<Result>, ids: seq<nat>,
                                             done: set<nat>)
    requires NamesOf(n, t) && Solution(t, user, s) && UserPrintable(t, user) && ShowsNumbers(t)
    requires forall k :: 0 <= k < |ids| ==> ids[k] < |s|
    ensures forall k :: 0 <= k < |DefconfigLines(t, s, ids, done)| ==> Writable(n, DefconfigLines(t, s, ids, done)[k])
  {
    if ids != [] {
      if ids[0] in done {
        DefconfigWritable(n, t, user, s, ids[1..], done);
      } else {
        DefconfigWritable(n, t, user, s, ids[1..], done + {ids[0]});
        if Written(t, s, ids[0]) { WrittenIsWritable(n, t, user, s, ids[0]); }
      }
    }
  }

  /**
    Reading the minimal file restores exactly the user values it was written for, if and only if every
    symbol to be written has a menu node. The constants and undefined symbols have none and are never written.
   */
  lemma DefconfigReadsBack(n: Names, t: Table, user: User, s: seq<Result>, ids: seq<nat>)
    requires NamesOf(n, t) && Solution(t, user, s) && UserPrintable(t, user) && ShowsNumbers(t)
    requires forall k :: 0 <= k < |ids| ==> ids[k] < |s|
    ensures ReadText(n, PrintAll(n, DefconfigLines(t, s, ids, {})), seq(|s|, i => None)) == Saved(t, s)
            <==> forall i :: 0 <= i < |s| && Written(t, s, i) ==> i in ids
  {
    var none: User := seq(|s|, i => None);
    DefconfigWritable(n, t, user, s, ids, {});
    ReadPrintAll(n, DefconfigLines(t, s, ids, {}), none);
    var r := AssignAll(none, DefconfigLines(t, s, ids, {}));
    forall i | 0 <= i < |s| ensures r[i] == Saved(t, s)[i] <==> (Written(t, s, i) ==> i in ids) {
      AssignDefconfig(t, s, ids, {}, none, i);
    }
  }

  /**
    savedefconfig: the text of the minimal file, read back and evaluated, gives every symbol its old
    value exactly when no symbol is forgotten.
   */
  lemma SaveDefconfig(n: Names, t: Table, user: User, rank: seq<nat>, s: seq<Result>, ids: seq<nat>, s': seq<Result>)
    requires WellFormed(t) && Acyclic(t, rank) && ShowsNumbers(t) && NamesOf(n, t)
    requires Solution(t, user, s) && UserPrintable(t, user)
    requires forall k :: 0 <= k < |ids| ==> ids[k] < |s|
    requires forall i :: 0 <= i < |s| && Written(t, s, i) ==> i in ids
    requires Solution(t, ReadText(n, PrintAll(n, DefconfigLines(t, s, ids, {})), seq(|s|, i => None)), s')
    ensures s' == s <==> forall i :: 0 <= i < |s| ==> !Forgotten(t, user, s, i)
  {
    DefconfigReadsBack(n, t, user, s, ids);
    DefconfigRoundTrip(t, user, rank, s, s');
  }
}
