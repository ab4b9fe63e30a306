/** Quoting of string values: sym_escape_string_value of symbol.c and its inverse in conf_set_sym_val of confdata.c. */
module Escaping {
  import opened Exprs

  predicate IsSpecial(c: char) {
    c == '"' || c == '\\'
  }

  function EscapeBody(s: string): string {
    if s == [] then [] else (if IsSpecial(s[0]) then ['\\', s[0]] else [s[0]]) + EscapeBody(s[1..])
  }

  /** sym_escape_string_value. */
  function Escape(s: string): string {
    "\"" + EscapeBody(s) + "\""
  }

  /** What conf_set_sym_val takes from the text after an opening quote; None if no quote closes it. */
  function Unescape(s: string): Option<string> {
    if s == [] then None
    else if s[0] == '"' then Some([])
    else if s[0] == '\\' then (if |s| == 1 then None else Prepend(s[1..2], Unescape(s[2..])))
    else Prepend(s[..1], Unescape(s[1..]))
  }

  function Prepend(a: string, r: Option<string>): Option<string> {
    if r.None? then None else Some(a + r.value)
  }

  /** Reading an escaped string gives the string, whatever follows the closing quote. */
  lemma {:induction false} UnescapeEscape(s: string, rest: string)
    ensures Unescape(EscapeBody(s) + "\"" + rest) == Some(s)
  {
    var all := EscapeBody(s) + "\"" + rest;
    if s != [] {
      UnescapeEscape(s[1..], rest);
      var tail := EscapeBody(s[1..]) + "\"" + rest;
      if IsSpecial(s[0]) {
        assert all == ['\\', s[0]] + tail;
        assert all[2..] == tail && all[1..2] == [s[0]];
      } else {
        assert all == [s[0]] + tail;
        assert all[1..] == tail && all[..1] == [s[0]];
      }
      assert [s[0]] + s[1..] == s;
    } else {
      assert all == "\"" + rest;
    }
  }

  lemma {:induction false} EscapeBodyConcat(a: string, b: string)
    ensures EscapeBody(a + b) == EscapeBody(a) + EscapeBody(b)
  {
    if a == [] {
      assert a + b == b;
    } else {
      assert (a + b)[1..] == a[1..] + b;
      EscapeBodyConcat(a[1..], b);
    }
  }

  lemma {:induction false} EscapeBodyPlain(a: string)
    requires forall k :: 0 <= k < |a| ==> !IsSpecial(a[k])
    ensures EscapeBody(a) == a
  {
    if a != [] { EscapeBodyPlain(a[1..]); }
  }

  /** strcspn(s + p, "\"\\"), as an index into s. */
  method NextSpecial(s: string, p: nat) returns (q: nat)
    requires p <= |s|
    ensures p <= q <= |s| && (q < |s| ==> IsSpecial(s[q]))
    ensures forall k :: p <= k < q ==> !IsSpecial(s[k])
  {
    q := p;
    while q < |s| && !IsSpecial(s[q])
      invariant p <= q <= |s| && forall k :: p <= k < q ==> !IsSpecial(s[k])
    {
      q := q + 1;
    }
  }

  /** Quotes and backslashes are escaped, and no other characters, each by itself. */
  lemma EscapedCharacters(s: string, c: char)
    ensures Escape(s + [c])
            == Escape(s)[..|Escape(s)| - 1] + if c == '"' || c == '\\' then ['\\', c, '"'] else [c, '"']
    ensures Escape("") == "\"\""
  {
    EscapeBodyConcat(s, [c]);
    assert [c][1..] == [];
    assert EscapeBody([c]) == if c == '"' || c == '\\' then ['\\', c] else [c];
    assert Escape(s)[..|Escape(s)| - 1] == "\"" + EscapeBody(s);
  }

  /**
    Up to the quote a backslash stands for the character after it and any other character for itself; without
    quote there is no string.
   */
  lemma UnescapedCharacters(s: string, c: char)
    ensures Unescape("") == None && Unescape("\\") == None
    ensures Unescape(['"'] + s) == Some("")
    ensures Unescape(['\\', c] + s).Some? <==> Unescape(s).Some?
    ensures Unescape(s).Some? ==> Unescape(['\\', c] + s) == Some([c] + Unescape(s).value)
    ensures c != '"' && c != '\\' ==> (Unescape([c] + s).Some? <==> Unescape(s).Some?)
    ensures c != '"' && c != '\\' && Unescape(s).Some? ==> Unescape([c] + s) == Some([c] + Unescape(s).value)
  {
    assert (['\\', c] + s)[2..] == s && (['\\', c] + s)[1..2] == [c];
    assert ([c] + s)[1..] == s && ([c] + s)[..1] == [c];
  }

  /** Skipping q - p ordinary characters and, unless the string ends there, one special one. */
  lemma EscapeStep(s: string, p: nat, q: nat)
    requires p <= q <= |s| && (q < |s| ==> IsSpecial(s[q])) && forall k :: p <= k < q ==> !IsSpecial(s[k])
    ensures EscapeBody(s[p..]) == s[p..q] + EscapeBody(s[q..])
    ensures q < |s| ==> EscapeBody(s[q..]) == ['\\', s[q]] + EscapeBody(s[q + 1..])
  {
    assert s[p..] == s[p..q] + s[q..];
    EscapeBodyConcat(s[p..q], s[q..]);
    EscapeBodyPlain(s[p..q]);
    if q < |s| { assert s[q..][1..] == s[q + 1..]; }
  }

  /** The first loop of sym_escape_string_value: the size of the buffer, terminator included. */
  method EscapedSize(s: string) returns (n: nat)
    ensures n == |Escape(s)| + 1
  {
    n := |s| + 2 + 1;
    var p := 0;
    assert s[0..] == s;
    while true
      invariant 0 <= p <= |s|
      invariant n + |EscapeBody(s[p..])| == |EscapeBody(s)| + 3 + |s| - p
      decreases |s| - p
    {
      var q := NextSpecial(s, p);
      EscapeStep(s, p, q);
      if q == |s| {
        return;
      }
      n := n + 1;
      p := q + 1;
    }
  }

  /** sym_escape_string_value: the buffer is filled to its last byte. */
  method EscapeInto(s: string) returns (res: array<char>)
    ensures fresh(res) && res[..] == Escape(s) + ['\0']
  {
    var size := EscapedSize(s);
    res := new char[size](_ => '\0');
    res[0] := '"';
    var n, p := 1, 0;
    assert s[0..] == s;
    while p < |s|
      invariant 0 <= p <= |s| && 1 <= n && n + |EscapeBody(s[p..])| + 2 == res.Length
      invariant res[..n] + EscapeBody(s[p..]) == "\"" + EscapeBody(s)
      invariant fresh(res)
    {
      n, p := EscapePiece(s, res, n, p);
    }
    assert s[p..] == [] && res[..n] + [] == res[..n];
    Terminate(res, n);
    Regroup("\"" + EscapeBody(s), "\"", ['\0']);
  }

  /** The closing quote and the terminator. */
  method Terminate(res: array<char>, n: nat)
    requires n + 2 == res.Length
    modifies res
    ensures res[..] == old(res[..n]) + ("\"" + ['\0'])
  {
    res[n] := '"';
    res[n + 1] := '\0';
    assert res[..n] == old(res[..n]);
    assert res[..] == res[..n] + ['"', '\0'];
  }

  lemma Regroup(a: string, b: string, c: string)
    ensures a + (b + c) == a + b + c
  {
  }

  /** One round: the ordinary characters from p on, and the special one after them. */
  method EscapePiece(s: string, res: array<char>, n: nat, p: nat) returns (n': nat, p': nat)
    requires p < |s| && n + |EscapeBody(s[p..])| + 2 == res.Length
    modifies res
    ensures p < p' <= |s| && n <= n' && n' + |EscapeBody(s[p'..])| + 2 == res.Length
    ensures res[..n'] + EscapeBody(s[p'..]) == old(res[..n]) + EscapeBody(s[p..])
  {
    var q := NextSpecial(s, p);
    EscapeStep(s, p, q);
    Pieces(s, p, q, res[..n]);
    Append(res, n, s[p..q]);
    n', p' := n + (q - p), q;
    if q < |s| {
      Append(res, n', ['\\', s[q]]);
      n', p' := n' + 2, q + 1;
    }
  }

  /** What has been written before, the ordinary characters and the special one, put together. */
  lemma Pieces(s: string, p: nat, q: nat, a: string)
    requires p <= q <= |s| && EscapeBody(s[p..]) == s[p..q] + EscapeBody(s[q..])
    requires q < |s| ==> EscapeBody(s[q..]) == ['\\', s[q]] + EscapeBody(s[q + 1..])
    ensures a + s[p..q] + EscapeBody(s[q..]) == a + EscapeBody(s[p..])
    ensures q < |s| ==> a + s[p..q] + ['\\', s[q]] + EscapeBody(s[q + 1..]) == a + EscapeBody(s[p..])
  {
    Regroup(a, s[p..q], EscapeBody(s[q..]));
    if q < |s| { Regroup(a + s[p..q], ['\\', s[q]], EscapeBody(s[q + 1..])); }
  }

  /** strncat at a known end. */
  method Append(a: array<char>, n: nat, x: string)
    requires n + |x| <= a.Length
    modifies a
    ensures a[..n] == old(a[..n]) && a[n..n + |x|] == x && a[..n + |x|] == old(a[..n]) + x
  {
    for k := 0 to |x|
      invariant a[..n] == old(a[..n]) && a[n..n + k] == x[..k]
    {
      a[n + k] := x[k];
    }
  }

  // -------------------------------------------------------- reading one value

  /** buf holds the C string s at p. */
  ghost predicate Holding(buf: array<char>, p: nat, s: string)
    reads buf
  {
    p + |s| < buf.Length && buf[p..p + |s|] == s && buf[p + |s|] == '\0' && forall k :: 0 <= k < |s| ==> s[k] != '\0'
  }

  /** strpbrk(p, "\"\\"): the position of the first quote or backslash, None at the end of the string. */
  method FindSpecial(buf: array<char>, p: nat, ghost s: string) returns (r: Option<nat>)
    requires Holding(buf, p, s)
    ensures r.Some? ==> p <= r.value < p + |s| && IsSpecial(s[r.value - p])
    ensures r.Some? ==> forall k :: 0 <= k < r.value - p ==> !IsSpecial(s[k])
    ensures r.None? ==> forall k :: 0 <= k < |s| ==> !IsSpecial(s[k])
  {
    var q := p;
    assert forall j :: p <= j < p + |s| ==> buf[j] == buf[p..p + |s|][j - p];
    while buf[q] != '\0'
      invariant forall j :: p <= j < p + |s| ==> buf[j] == s[j - p]
      invariant p <= q <= p + |s| && forall k :: 0 <= k < q - p ==> !IsSpecial(s[k])
      decreases p + |s| - q
    {
      assert buf[q] == s[q - p] || q == p + |s|;
      if IsSpecial(buf[q]) {
        return Some(q);
      }
      q := q + 1;
    }
    return None;
  }

  /** Up to k the string z at p has moved down by one; from k on it is as it was. */
  ghost predicate Moving(buf: array<char>, p: nat, k: nat, z: string)
    reads buf
  {
    && p <= k < p + |z| <= buf.Length
    && buf[p..k] == z[1..k - p + 1] && buf[k..p + |z|] == z[k - p..]
  }

  method MoveOne(buf: array<char>, p: nat, k: nat, ghost z: string)
    requires Moving(buf, p, k, z) && k + 1 < p + |z|
    modifies buf
    ensures Moving(buf, p, k + 1, z) && buf[..p] == old(buf[..p])
  {
    ghost var tail := buf[k..p + |z|];
    assert tail[1] == buf[k + 1] && tail[1] == z[k - p + 1];
    assert buf[k + 1..p + |z|] == tail[1..];
    buf[k] := buf[k + 1];
    assert buf[p..k + 1] == buf[p..k] + [buf[k]];
    assert buf[k + 1..p + |z|] == tail[1..];
  }

  /** memmove(p, p + 1, strlen(p)): drops the first character of the string at p, terminator included. */
  method DropFirst(buf: array<char>, p: nat, ghost s: string)
    requires Holding(buf, p, s) && s != []
    modifies buf
    ensures Holding(buf, p, s[1..]) && buf[..p] == old(buf[..p]) && p + |s| < buf.Length && buf[p + |s|] == '\0'
  {
    var k := p;
    ghost var z := s + ['\0'];
    assert buf[p..p + |z|] == z;
    while buf[k] != '\0'
      invariant Moving(buf, p, k, z) && buf[..p] == old(buf[..p])
      decreases p + |z| - k
    {
      assert buf[k] == buf[k..p + |z|][0] == z[k - p];
      MoveOne(buf, p, k, z);
      k := k + 1;
    }
    assert buf[k] == buf[k..p + |z|][0] == z[k - p];
    assert k == p + |s|;
    DroppedFirst(buf, p, s);
  }

  lemma DroppedFirst(buf: array<char>, p: nat, s: string)
    requires s != [] && Moving(buf, p, p + |s|, s + ['\0']) && forall k :: 0 <= k < |s| ==> s[k] != '\0'
    ensures Holding(buf, p, s[1..]) && buf[p + |s|] == '\0'
  {
    var z, end := s + ['\0'], p + |s|;
    var front := buf[p..end];
    assert buf[end..p + |z|] == [buf[end]] && z[|s|..] == ['\0'];
    assert front == s[1..] + ['\0'];
    assert buf[p..end - 1] == front[..|s| - 1] == s[1..];
    assert buf[end - 1] == front[|s| - 1];
  }

  /** done has been unescaped and stands before p; todo is still to be looked at. */
  ghost predicate Unescaping(buf: array<char>, start: nat, p: nat, s: string, done: string, todo: string)
    reads buf
  {
    && start <= p && Holding(buf, p, todo)
    && Unescape(s) == Prepend(done, Unescape(todo))
    && (Unescape(todo).Some? ==> buf[start..p] == done && forall k :: 0 <= k < |done| ==> done[k] != '\0')
  }

  /** The loop of conf_set_sym_val that unescapes the string at start in place. */
  method UnescapeInPlace(buf: array<char>, start: nat, ghost s: string) returns (ok: bool)
    requires Holding(buf, start, s)
    modifies buf
    ensures buf[..start] == old(buf[..start])
    ensures ok <==> Unescape(s).Some?
    ensures ok ==> Holding(buf, start, Unescape(s).value)
  {
    var p: nat := start;
    ghost var done, todo := "", s;
    UnescapeSkip(s, 0);
    assert s[0..] == s && s[..0] == "";
    var end := false;
    ok := false;
    while !end
      invariant buf[..start] == old(buf[..start])
      invariant !end ==> Unescaping(buf, start, p, s, done, todo)
      invariant end ==> (ok <==> Unescape(s).Some?) && (ok ==> Holding(buf, start, Unescape(s).value))
      decreases !end, |todo|
    {
      end, ok, p, done, todo := UnescapeStep(buf, start, p, s, done, todo);
    }
  }

  /** One round of the loop, up to the next quote or backslash; end tells that it was the last. */
  method UnescapeStep(buf: array<char>, start: nat, p: nat, ghost s: string, ghost done: string, ghost todo: string)
    returns (end: bool, ok: bool, p': nat, ghost done': string, ghost todo': string)
    requires Unescaping(buf, start, p, s, done, todo)
    modifies buf
    ensures buf[..start] == old(buf[..start])
    ensures !end ==> Unescaping(buf, start, p', s, done', todo') && |todo'| < |todo|
    ensures end ==> (ok <==> Unescape(s).Some?) && (ok ==> Holding(buf, start, Unescape(s).value))
  {
    end, ok, p', done', todo' := true, false, p, done, todo;
    var r := FindSpecial(buf, p, todo);
    if r.None? {
      NoSpecial(todo);
      return;
    }
    Advance(buf, start, p, s, done, todo, r.value - p);
    end, p', done', todo' := TakeSpecial(buf, start, r.value, s, done + todo[..r.value - p], todo[r.value - p..]);
    ok := end;
  }

  /** The quote or backslash at p. */
  method TakeSpecial(buf: array<char>, start: nat, p: nat, ghost s: string, ghost done: string, ghost todo: string)
    returns (end: bool, p': nat, ghost done': string, ghost todo': string)
    requires Unescaping(buf, start, p, s, done, todo) && todo != [] && IsSpecial(todo[0]) && buf[p] == todo[0]
    modifies buf
    ensures buf[..start] == old(buf[..start])
    ensures !end ==> Unescaping(buf, start, p', s, done', todo') && |todo'| < |todo|
    ensures end ==> Unescape(s).Some? && Holding(buf, start, Unescape(s).value)
  {
    end, p', done', todo' := buf[p] == '"', p + 1, DoneAfter(done, todo), TodoAfter(todo);
    if end {
      CloseString(buf, start, p, s, done, todo);
    } else {
      DropBackslash(buf, start, p, s, done, todo);
    }
  }

  lemma Advance(buf: array<char>, start: nat, p: nat, s: string, done: string, todo: string, q: nat)
    requires Unescaping(buf, start, p, s, done, todo) && q < |todo| && forall k :: 0 <= k < q ==> !IsSpecial(todo[k])
    ensures Unescaping(buf, start, p + q, s, done + todo[..q], todo[q..])
    ensures buf[p + q] == todo[q..][0] && todo[q] != '\0'
  {
    UnescapeSkip(todo, q);
    assert buf[p + q..p + |todo|] == buf[p..p + |todo|][q..];
    assert buf[p..p + q] == buf[p..p + |todo|][..q];
    assert buf[start..p + q] == buf[start..p] + buf[p..p + q];
    assert buf[p + q] == buf[p..p + |todo|][q];
    PrependTwice(done, todo[..q], Unescape(todo[q..]));
  }

  lemma PrependTwice(a: string, b: string, r: Option<string>)
    ensures Prepend(a, Prepend(b, r)) == Prepend(a + b, r)
  {
    if r.Some? { assert a + (b + r.value) == a + b + r.value; }
  }

  /** A quote at p: the string ends here. */
  method CloseString(buf: array<char>, start: nat, p: nat, ghost s: string, ghost done: string, ghost todo: string)
    requires Unescaping(buf, start, p, s, done, todo) && todo != [] && todo[0] == '"'
    modifies buf
    ensures buf[..start] == old(buf[..start])
    ensures Unescape(s).Some? && Holding(buf, start, Unescape(s).value)
  {
    Closed(s, done, todo);
    ghost var before := buf[..p];
    buf[p] := '\0';
    assert buf[..p] == before;
    assert buf[..start] == before[..start] && buf[start..p] == before[start..];
    assert start + |done| == p;
  }

  lemma Closed(s: string, done: string, todo: string)
    requires Unescape(s) == Prepend(done, Unescape(todo)) && todo != [] && todo[0] == '"'
    ensures Unescape(s) == Some(done)
  {
    assert done + [] == done;
  }

  /** What is done and what is left after the backslash that todo starts with. */
  function DoneAfter(done: string, todo: string): string {
    if |todo| <= 1 then done else done + todo[1..2]
  }

  function TodoAfter(todo: string): string {
    if |todo| <= 1 then [] else todo[2..]
  }

  /** A backslash at p: it is dropped, and the character after it is taken as it is. */
  method DropBackslash(buf: array<char>, start: nat, p: nat, ghost s: string, ghost done: string, ghost todo: string)
    requires Unescaping(buf, start, p, s, done, todo) && todo != [] && todo[0] == '\\'
    modifies buf
    ensures Unescaping(buf, start, p + 1, s, DoneAfter(done, todo), TodoAfter(todo))
    ensures buf[..start] == old(buf[..start])
  {
    Halves(buf, start, p);
    DropFirst(buf, p, todo);
    Halves(buf, start, p);
    Dropped(buf, start, p, s, done, todo);
  }

  lemma Halves(buf: array<char>, start: nat, p: nat)
    requires start <= p <= buf.Length
    ensures buf[start..p] == buf[..p][start..] && buf[..start] == buf[..p][..start]
  {
  }

  lemma Dropped(buf: array<char>, start: nat, p: nat, s: string, done: string, todo: string)
    requires todo != [] && todo[0] == '\\' && start <= p && Holding(buf, p, todo[1..])
    requires p + |todo| < buf.Length && buf[p + |todo|] == '\0'
    requires Unescape(s) == Prepend(done, Unescape(todo))
    requires Unescape(todo).Some? ==> buf[start..p] == done && forall k :: 0 <= k < |done| ==> done[k] != '\0'
    ensures Unescaping(buf, start, p + 1, s, DoneAfter(done, todo), TodoAfter(todo))
  {
    if |todo| == 1 {
      TakenLast(buf, start, p, s, done, todo);
    } else {
      Taken(buf, start, p, s, done, todo);
    }
  }

  lemma TakenLast(buf: array<char>, start: nat, p: nat, s: string, done: string, todo: string)
    requires |todo| == 1 && todo[0] == '\\' && start <= p && p + 1 < buf.Length && buf[p + 1] == '\0'
    requires Unescape(s) == Prepend(done, Unescape(todo))
    ensures Unescaping(buf, start, p + 1, s, done, [])
  {
  }

  lemma Taken(buf: array<char>, start: nat, p: nat, s: string, done: string, todo: string)
    requires |todo| > 1 && todo[0] == '\\' && start <= p && Holding(buf, p, todo[1..])
    requires Unescape(s) == Prepend(done, Unescape(todo))
    requires Unescape(todo).Some? ==> buf[start..p] == done && forall k :: 0 <= k < |done| ==> done[k] != '\0'
    ensures Unescaping(buf, start, p + 1, s, done + todo[1..2], todo[2..])
  {
    PrependTwice(done, todo[1..2], Unescape(todo[2..]));
    var t := todo[1..];
    assert t[1..] == todo[2..] && t[..1] == todo[1..2];
    assert buf[p + 1..p + 1 + |todo[2..]|] == buf[p..p + |t|][1..];
    assert buf[p..p + 1] == buf[p..p + |t|][..1];
    assert buf[start..p + 1] == buf[start..p] + buf[p..p + 1];
    assert todo[1..2][0] == t[0];
  }

  /** Without a quote or backslash there is no closing quote. */
  lemma {:induction false} NoSpecial(s: string)
    requires forall k :: 0 <= k < |s| ==> !IsSpecial(s[k])
    ensures Unescape(s).None?
  {
    if s != [] { NoSpecial(s[1..]); }
  }

  lemma {:induction false} UnescapeSkip(s: string, q: nat)
    requires q <= |s| && forall k :: 0 <= k < q ==> !IsSpecial(s[k])
    ensures Unescape(s) == Prepend(s[..q], Unescape(s[q..]))
  {
    if q > 0 {
      UnescapeSkip(s[1..], q - 1);
      assert s[1..][q - 1..] == s[q..] && s[..1] + s[1..][..q - 1] == s[..q];
      if Unescape(s[q..]).Some? {
        assert s[..1] + (s[1..][..q - 1] + Unescape(s[q..]).value) == s[..q] + Unescape(s[q..]).value;
      }
    } else {
      assert s[0..] == s;
      if Unescape(s).Some? { assert [] + Unescape(s).value == Unescape(s).value; }
    }
  }
}
