// jsmn, default build (neither JSMN_STRICT nor JSMN_PARENT_LINKS): a
// single-pass JSON tokenizer that fills a caller-supplied pool of tokens.
// The parser is an object whose position and token counters advance as it
// scans; tokens are written in place in the caller's array, and a NULL array
// only counts tokens.  The JSON text is a byte sequence read up to `len` or
// to the first NUL, whichever comes first.

module Jsmn {
  import opened Common

  datatype TokenType = Undefined | Object | Array | String | Primitive

  /** jsmntok_t: the token's type, the span [start, end) in the text, and its child count. */
  datatype Token = Token(kind: TokenType, start: int, end: int, size: int)

  const ERROR_NOMEM: int := -1
  const ERROR_INVAL: int := -2
  const ERROR_PART: int := -3

  /** The tokens of a possibly absent array. */
  function Contents(tokens: array?<Token>): (ts: seq<Token>)
    reads tokens
    ensures tokens != null ==> ts == tokens[..]
  {
    if tokens == null then [] else tokens[..]
  }

  /**
   * The container a bracket stands for: braces, opening or closing, for an
   * object and square brackets for an array, so a closing bracket matches
   * the container its own kind of opening bracket started.
   */
  function BracketKind(c: Byte): (k: TokenType)
    ensures k == Object <==> c == '{' as int || c == '}' as int
    ensures k == Object || k == Array
  {
    if c == '{' as int || c == '}' as int then Object else Array
  }

  predicate IsContainer(k: TokenType)
  {
    k == Object || k == Array
  }

  /** A token whose start is known and whose end is not: a container still open. */
  predicate IsOpen(t: Token)
  {
    t.start != -1 && t.end == -1
  }

  // ---------------------------------------------------------------------------
  // Reference scans of primitives and strings

  /** The outcome of scanning a primitive or a string. */
  datatype Scan = Closed(at: nat) | Invalid | Partial

  /** Bytes that end a primitive without belonging to it. */
  predicate EndsPrimitive(b: Byte)
  {
    b == ':' as int || b == '\t' as int || b == '\r' as int || b == '\n' as int ||
    b == ' ' as int || b == ',' as int || b == ']' as int || b == '}' as int
  }

  /** Bytes a primitive may contain. */
  predicate PrimitiveByte(b: Byte)
  {
    32 <= b < 127 && !EndsPrimitive(b)
  }

  /**
   * Where a primitive that starts at p ends: at the first delimiter, NUL or
   * the end of the input, unless a control or non-ASCII byte comes first.
   */
  function PrimitiveScan(js: seq<Byte>, len: nat, p: nat): (r: Scan)
    requires len <= |js| && p <= len
    ensures !r.Partial?
    ensures r.Closed? ==> p <= r.at <= len && forall k :: p <= k < r.at ==> PrimitiveByte(js[k])
    ensures r.Closed? ==> r.at == len || js[r.at] == 0 || EndsPrimitive(js[r.at])
    ensures r.Invalid? ==> p < len && js[p] != 0 && !EndsPrimitive(js[p]) &&
                           (!PrimitiveByte(js[p]) || PrimitiveScan(js, len, p + 1).Invalid?)
    decreases len - p
  {
    if p == len || js[p] == 0 || EndsPrimitive(js[p]) then Closed(p)
    else if js[p] < 32 || js[p] >= 127 then Invalid
    else PrimitiveScan(js, len, p + 1)
  }

  /** Escapes that stand for one character: \" \/ \\ \b \f \r \n \t. */
  predicate SimpleEscape(b: Byte)
  {
    b == '"' as int || b == '/' as int || b == '\\' as int || b == 'b' as int ||
    b == 'f' as int || b == 'r' as int || b == 'n' as int || b == 't' as int
  }

  predicate IsHex(b: Byte)
  {
    (48 <= b <= 57) || (65 <= b <= 70) || (97 <= b <= 102)
  }

  /**
   * After \u at p: the position after at most 4 - k hex digits, stopping
   * early at NUL or the end of the input; -1 if a non-hex byte comes first.
   */
  function HexEnd(js: seq<Byte>, len: nat, p: nat, k: nat): (r: int)
    requires len <= |js| && p <= len && k <= 4
    ensures r == -1 || p <= r <= len
    decreases 4 - k
  {
    if k == 4 || p == len || js[p] == 0 then p
    else if !IsHex(js[p]) then -1
    else HexEnd(js, len, p + 1, k + 1)
  }

  /**
   * Where the scan of a string body goes on after the byte at p (neither a
   * quote nor a NUL): past a two-byte escape, past "\u" and up to four hex
   * digits, or past the byte itself; -1 for a bad escape.  A backslash that
   * is the last byte before len is taken as a plain byte.
   */
  function StringNext(js: seq<Byte>, len: nat, p: nat): (r: int)
    requires len <= |js| && p < len
    ensures r == -1 || p < r <= len
  {
    if js[p] == '\\' as int && p + 1 < len then
      if SimpleEscape(js[p + 1]) then p + 2
      else if js[p + 1] == 'u' as int then HexEnd(js, len, p + 2, 0)
      else -1
    else p + 1
  }

  /** Where the string whose body starts at p is closed by an unescaped quote. */
  function StringScan(js: seq<Byte>, len: nat, p: nat): (r: Scan)
    requires len <= |js| && p <= len
    ensures r.Closed? ==> p <= r.at < len && js[r.at] == '"' as int
    decreases len - p
  {
    if p == len || js[p] == 0 then Partial
    else if js[p] == '"' as int then Closed(p)
    else
      var q := StringNext(js, len, p);
      if q < 0 then Invalid else StringScan(js, len, q)
  }

  /** A string body free of quotes, backslashes and NULs spans exactly up to the closing quote. */
  lemma {:induction false} PlainStringSpan(js: seq<Byte>, len: nat, p: nat, q: nat)
    requires len <= |js| && p <= q < len && js[q] == '"' as int
    requires forall k :: p <= k < q ==> js[k] != '"' as int && js[k] != '\\' as int && js[k] != 0
    ensures StringScan(js, len, p) == Closed(q)
    decreases q - p
  {
    if p < q {
      PlainStringSpan(js, len, p + 1, q);
    }
  }

  /** A backslash followed by anything but an allowed escape makes the string invalid. */
  lemma {:induction false} BadEscapeInvalid(js: seq<Byte>, len: nat, p: nat, q: nat)
    requires len <= |js| && p <= q && q + 1 < len
    requires forall k :: p <= k < q ==> js[k] != '"' as int && js[k] != '\\' as int && js[k] != 0
    requires js[q] == '\\' as int && !SimpleEscape(js[q + 1]) && js[q + 1] != 'u' as int
    ensures StringScan(js, len, p) == Invalid
    decreases q - p
  {
    if p < q {
      BadEscapeInvalid(js, len, p + 1, q);
    }
  }

  /** A string with no closing quote before the end of the input is partial. */
  lemma {:induction false} UnterminatedPartial(js: seq<Byte>, len: nat, p: nat)
    requires len <= |js| && p <= len
    requires forall k :: p <= k < len ==> js[k] != '"' as int && js[k] != '\\' as int
    ensures StringScan(js, len, p) == Partial
    decreases len - p
  {
    if p < len && js[p] != 0 {
      UnterminatedPartial(js, len, p + 1);
    }
  }

  /** The up-to-four hex digits of a \u escape, scanned from p: where they end, or -1. */
  method SkipHex(js: seq<Byte>, len: nat, p: nat) returns (e: int)
    requires len <= |js| && p <= len
    ensures e == HexEnd(js, len, p, 0)
  {
    var q := p;
    var i: nat := 0;
    while i < 4 && q < len && js[q] != 0
      invariant i <= 4 && q == p + i && q <= len
      invariant HexEnd(js, len, q, i) == HexEnd(js, len, p, 0)
      decreases 4 - i
    {
      if !IsHex(js[q]) {
        return -1;
      }
      q := q + 1;
      i := i + 1;
    }
    return q;
  }

  /**
   * The escape handling of jsmn_parse_string on a body byte at p: a
   * backslash skips the escaped byte, and after "\u" up to four hex
   * digits; what follows resumes one byte further on.  -1 for a bad escape.
   */
  method SkipInString(js: seq<Byte>, len: nat, p: nat) returns (q: int)
    requires len <= |js| && p < len
    ensures q == StringNext(js, len, p)
  {
    q := p;
    if js[q] == '\\' as int && q + 1 < len {
      q := q + 1;
      if SimpleEscape(js[q]) {
      } else if js[q] == 'u' as int {
        var e := SkipHex(js, len, q + 1);
        if e < 0 {
          return -1;
        }
        q := e - 1;
      } else {
        return -1;
      }
    }
    q := q + 1;
  }

  // ---------------------------------------------------------------------------
  // The token pool

  /** The index of the innermost (last allocated) open container among ts[..n], or -1. */
  function InnermostOpen(ts: seq<Token>, n: nat): (r: int)
    requires n <= |ts|
    ensures -1 <= r < n
    ensures r >= 0 ==> IsOpen(ts[r])
    ensures forall k :: r < k < n ==> !IsOpen(ts[k])
  {
    if n == 0 then -1
    else if IsOpen(ts[n - 1]) then n - 1
    else InnermostOpen(ts, n - 1)
  }

  /**
   * The kinds of the open containers among ts[..n], outermost first: the
   * stack that a closing bracket is checked against, the innermost on top.
   */
  function OpenKinds(ts: seq<Token>, n: nat): (ks: seq<TokenType>)
    requires n <= |ts|
    ensures |ks| == 0 <==> InnermostOpen(ts, n) == -1
    ensures |ks| > 0 ==> ks[|ks| - 1] == ts[InnermostOpen(ts, n)].kind
  {
    if n == 0 then []
    else if IsOpen(ts[n - 1]) then OpenKinds(ts, n - 1) + [ts[n - 1].kind]
    else OpenKinds(ts, n - 1)
  }

  /** Pools that agree on which of their first n tokens are open, and on the kinds of those, have the same stack. */
  lemma {:induction false} OpenKindsAgree(a: seq<Token>, b: seq<Token>, n: nat)
    requires n <= |a| && n <= |b|
    requires forall i :: 0 <= i < n ==> IsOpen(a[i]) == IsOpen(b[i]) && (IsOpen(a[i]) ==> a[i].kind == b[i].kind)
    ensures OpenKinds(a, n) == OpenKinds(b, n)
    decreases n
  {
    if n > 0 {
      OpenKindsAgree(a, b, n - 1);
    }
  }

  /** Tokens m .. n - 1 that are all closed add nothing to the stack. */
  lemma {:induction false} OpenKindsNoneAbove(ts: seq<Token>, m: nat, n: nat)
    requires m <= n <= |ts|
    requires forall j :: m <= j < n ==> !IsOpen(ts[j])
    ensures OpenKinds(ts, n) == OpenKinds(ts, m)
    decreases n
  {
    if n > m {
      OpenKindsNoneAbove(ts, m, n - 1);
    }
  }

  /**
   * The tokens allocated so far, below the scan position `bound`: every
   * start is known and below it, ends are known except for open
   * containers, and spans end at or below it.
   */
  ghost predicate InBounds(ts: seq<Token>, n: nat, bound: int)
    requires n <= |ts|
  {
    (forall i :: 0 <= i < n ==> 0 <= ts[i].start < bound) &&
    (forall i :: 0 <= i < n ==> ts[i].end == -1 ==> IsContainer(ts[i].kind)) &&
    (forall i :: 0 <= i < n ==> ts[i].end != -1 ==> ts[i].start <= ts[i].end <= bound)
  }

  /** A larger bound keeps an ordered pool ordered. */
  lemma InBoundsWeaken(ts: seq<Token>, n: nat, b1: int, b2: int)
    requires n <= |ts| && InBounds(ts, n, b1) && b1 <= b2
    ensures InBounds(ts, n, b2)
  {
  }

  /**
   * Each token's span agrees with the text: containers start on their
   * opening bracket and, once closed, end just past the matching closing
   * one; a string's span is the body between its quotes; a primitive's span
   * is exactly what PrimitiveScan accepts.  No token is left Undefined.
   */
  predicate TokenSpan(js: seq<Byte>, len: nat, t: Token)
    requires len <= |js|
  {
    match t.kind
    case Object =>
      0 <= t.start < len && js[t.start] == '{' as int &&
      (t.end != -1 ==> 0 < t.end <= len && js[t.end - 1] == '}' as int)
    case Array =>
      0 <= t.start < len && js[t.start] == '[' as int &&
      (t.end != -1 ==> 0 < t.end <= len && js[t.end - 1] == ']' as int)
    case String =>
      1 <= t.start <= len && js[t.start - 1] == '"' as int &&
      StringScan(js, len, t.start).Closed? && StringScan(js, len, t.start).at == t.end
    case Primitive =>
      0 <= t.start < t.end && t.start <= len &&
      PrimitiveScan(js, len, t.start).Closed? && PrimitiveScan(js, len, t.start).at == t.end
    case Undefined => false
  }

  ghost predicate Spans(js: seq<Byte>, len: nat, ts: seq<Token>, n: nat)
    requires len <= |js| && n <= |ts|
  {
    forall i :: 0 <= i < n ==> TokenSpan(js, len, ts[i])
  }

  /**
   * How the pool may change while parsing: tokens already allocated keep
   * their type and start, a closed token keeps its end, child counts only
   * grow, and the unallocated part of the pool is not touched.
   */
  ghost predicate Grows(before: seq<Token>, after: seq<Token>, n0: nat, n1: nat)
  {
    n0 <= n1 <= |before| == |after| &&
    (forall i :: 0 <= i < n0 ==>
       after[i].kind == before[i].kind && after[i].start == before[i].start &&
       (before[i].end != -1 ==> after[i].end == before[i].end) &&
       before[i].size <= after[i].size) &&
    (forall i :: n1 <= i < |after| ==> after[i] == before[i])
  }

  lemma GrowsTrans(a: seq<Token>, b: seq<Token>, c: seq<Token>, n0: nat, n1: nat, n2: nat)
    requires Grows(a, b, n0, n1) && Grows(b, c, n1, n2)
    ensures Grows(a, c, n0, n2)
  {
  }

  /**
   * Tokens are allocated in document order: a token's start lies before the
   * start of every token allocated after it, so a container comes before
   * its children and each child before its next sibling.
   */
  ghost predicate Ordered(ts: seq<Token>, n: nat)
    requires n <= |ts|
  {
    forall i, j :: 0 <= i < j < n ==> ts[i].start < ts[j].start
  }

  /** The super token is none (-1) or one of the n tokens allocated. */
  predicate SupOk(sup: int, n: nat)
  {
    sup == -1 || 0 <= sup < n
  }

  /**
   * The parser's pool state: n tokens allocated out of numTokens, the super
   * token among them, their spans below the scan position `bound`, and
   * their starts in document order.
   */
  ghost predicate PoolOk(ts: seq<Token>, n: nat, sup: int, numTokens: nat, bound: int)
  {
    SupOk(sup, n) && n <= numTokens <= |ts| && InBounds(ts, n, bound) && Ordered(ts, n)
  }

  /** tokens[sup].size++ when there is a super token. */
  function Bump(ts: seq<Token>, sup: int): seq<Token>
    requires sup < |ts|
  {
    if sup < 0 then ts else ts[sup := ts[sup].(size := ts[sup].size + 1)]
  }

  /** The pool after a '{' or '[' at `at` opens token n as a child of sup. */
  function Opened(ts: seq<Token>, n: nat, sup: int, kind: TokenType, at: int): seq<Token>
    requires n < |ts| && sup < n
  {
    Bump(ts, sup)[n := Token(kind, at, -1, 0)]
  }

  /** The pool after a string or primitive t is allocated as token n and counted as a child of sup. */
  function Pushed(ts: seq<Token>, n: nat, sup: int, t: Token): seq<Token>
    requires n < |ts| && sup < n
  {
    Bump(ts[n := t], sup)
  }

  /** The pool after a closing bracket gives token k its end. */
  function Ended(ts: seq<Token>, k: nat, e: int): seq<Token>
    requires k < |ts|
  {
    ts[k := ts[k].(end := e)]
  }

  /** Counting a child changes no span. */
  lemma BumpKeeps(js: seq<Byte>, len: nat, ts: seq<Token>, n: nat, sup: int, bound: int)
    requires len <= |js| && n <= |ts| && sup < n
    ensures InBounds(ts, n, bound) ==> InBounds(Bump(ts, sup), n, bound)
    ensures Ordered(ts, n) ==> Ordered(Bump(ts, sup), n)
    ensures Spans(js, len, ts, n) ==> Spans(js, len, Bump(ts, sup), n)
    ensures Grows(ts, Bump(ts, sup), n, n)
  {
    if sup >= 0 {
      var t := ts[sup].(size := ts[sup].size + 1);
      assert TokenSpan(js, len, t) == TokenSpan(js, len, ts[sup]);
    }
  }

  /**
   * Opening a container at the scan position keeps the pool valid one byte
   * further on, with the new token as the super token; earlier tokens only
   * gain a child.
   */
  lemma OpenedOk(ts: seq<Token>, n: nat, sup: int, numTokens: nat, bound: int, kind: TokenType)
    requires PoolOk(ts, n, sup, numTokens, bound) && n < numTokens && 0 <= bound
    requires IsContainer(kind)
    ensures PoolOk(Opened(ts, n, sup, kind, bound), n + 1, n, numTokens, bound + 1)
    ensures Grows(ts, Opened(ts, n, sup, kind, bound), n, n + 1)
  {
    BumpKeeps([], 0, ts, n, sup, bound);
    InBoundsWeaken(Bump(ts, sup), n, bound, bound + 1);
  }

  /** An opening bracket's token spans from that bracket. */
  lemma OpenedSpans(js: seq<Byte>, len: nat, ts: seq<Token>, n: nat, sup: int, at: nat)
    requires len <= |js| && n < |ts| && sup < n && at < len
    requires js[at] == '{' as int || js[at] == '[' as int
    requires Spans(js, len, ts, n)
    ensures Spans(js, len, Opened(ts, n, sup, BracketKind(js[at]), at), n + 1)
  {
    BumpKeeps(js, len, ts, n, sup, 0);
    assert TokenSpan(js, len, Token(BracketKind(js[at]), at, -1, 0));
  }

  /**
   * Allocating a string or primitive that starts and ends within the next
   * bound keeps the pool valid, with the super token unchanged.
   */
  lemma PushedOk(ts: seq<Token>, n: nat, sup: int, numTokens: nat, bound: int, t: Token, nb: int)
    requires PoolOk(ts, n, sup, numTokens, bound) && n < numTokens && bound <= nb
    requires 0 <= bound <= t.start < nb && t.start <= t.end <= nb
    ensures PoolOk(Pushed(ts, n, sup, t), n + 1, sup, numTokens, nb)
    ensures Grows(ts, Pushed(ts, n, sup, t), n, n + 1)
  {
    InBoundsWeaken(ts, n, bound, nb);
    BumpKeeps([], 0, ts[n := t], n + 1, sup, nb);
  }

  /** A token whose span agrees with the text keeps the pool's spans in agreement. */
  lemma PushedSpans(js: seq<Byte>, len: nat, ts: seq<Token>, n: nat, sup: int, t: Token)
    requires len <= |js| && n < |ts| && sup < n
    requires Spans(js, len, ts, n) && TokenSpan(js, len, t)
    ensures Spans(js, len, Pushed(ts, n, sup, t), n + 1)
  {
    BumpKeeps(js, len, ts[n := t], n + 1, sup, 0);
  }

  /**
   * Ending an open token at e, at or past the scan position, keeps the
   * pool valid up to e, whichever open token becomes the super token.
   */
  lemma EndedOk(ts: seq<Token>, n: nat, sup: int, numTokens: nat, bound: int, k: nat, e: int, ts1: seq<Token>, sup1: int)
    requires PoolOk(ts, n, sup, numTokens, bound) && k < n && IsOpen(ts[k]) && bound <= e
    requires ts1 == Ended(ts, k, e) && sup1 == InnermostOpen(ts1, n)
    ensures PoolOk(ts1, n, sup1, numTokens, e)
    ensures Grows(ts, ts1, n, n)
  {
    InBoundsWeaken(ts, n, bound, e);
  }

  /** A closing bracket at e - 1 of the token's own kind gives it a span ending past that bracket. */
  lemma EndedSpans(js: seq<Byte>, len: nat, ts: seq<Token>, n: nat, k: nat, e: nat)
    requires len <= |js| && n <= |ts| && k < n && 0 < e <= len
    requires js[e - 1] == '}' as int || js[e - 1] == ']' as int
    requires ts[k].kind == BracketKind(js[e - 1])
    requires Spans(js, len, ts, n)
    ensures Spans(js, len, Ended(ts, k, e), n)
  {
    assert TokenSpan(js, len, ts[k]);
    assert TokenSpan(js, len, ts[k].(end := e));
  }

  /** Opening a container pushes its kind on the stack; counting a child changes nothing. */
  lemma OpenKindsOpened(ts: seq<Token>, n: nat, sup: int, kind: TokenType, at: nat)
    requires n < |ts| && sup < n
    ensures OpenKinds(Opened(ts, n, sup, kind, at), n + 1) == OpenKinds(ts, n) + [kind]
  {
    OpenKindsAgree(ts, Opened(ts, n, sup, kind, at), n);
  }

  /** Allocating a closed token, a string or a primitive, leaves the stack as it was. */
  lemma OpenKindsPushed(ts: seq<Token>, n: nat, sup: int, t: Token)
    requires n < |ts| && sup < n && t.end != -1
    ensures OpenKinds(Pushed(ts, n, sup, t), n + 1) == OpenKinds(ts, n)
  {
    OpenKindsAgree(ts, Pushed(ts, n, sup, t), n);
  }

  /** Giving the innermost open token its end pops it off the stack. */
  lemma OpenKindsEnded(ts: seq<Token>, n: nat, e: int)
    requires n <= |ts| && InnermostOpen(ts, n) >= 0 && e != -1
    ensures var ks := OpenKinds(ts, n);
            |ks| > 0 && OpenKinds(Ended(ts, InnermostOpen(ts, n), e), n) == ks[..|ks| - 1]
  {
    var k := InnermostOpen(ts, n);
    var x := Ended(ts, k, e);
    OpenKindsNoneAbove(ts, k + 1, n);
    OpenKindsNoneAbove(x, k, n);
    OpenKindsAgree(ts, x, k);
    var below := OpenKinds(ts, k);
    assert OpenKinds(ts, k + 1) == below + [ts[k].kind];
    assert (below + [ts[k].kind])[..|below|] == below;
  }

  /** A count that an error overrides: one more token unless an error was met. */
  function Plus1(c: int): (r: int)
    ensures c < 0 ==> r == c
    ensures c >= 0 ==> r == c + 1
  {
    if c < 0 then c else c + 1
  }

  /** Where one pass of jsmn_parse's loop leaves the scan, in terms of the text alone. */
  datatype Move = Next(at: nat, counted: bool) | Fail(code: int)

  /**
   * One pass of the loop on the byte at p, judged from the text alone:
   * brackets and strings and primitives are counted, whitespace, ':' and
   * ',' are skipped; a string resumes after its closing quote, a primitive
   * at its delimiter; a bad string or primitive fails with its error.
   */
  function StepFrom(js: seq<Byte>, len: nat, p: nat): (m: Move)
    requires len <= |js| && p < len && js[p] != 0
    ensures m.Next? ==> p < m.at <= len
    ensures m.Fail? ==> m.code == ERROR_INVAL || m.code == ERROR_PART
  {
    var c := js[p];
    if c == '{' as int || c == '[' as int then Next(p + 1, true)
    else if c == '}' as int || c == ']' as int || c == '\t' as int || c == '\r' as int ||
            c == '\n' as int || c == ' ' as int || c == ':' as int || c == ',' as int then
      Next(p + 1, false)
    else if c == '"' as int then
      match StringScan(js, len, p + 1)
      case Closed(q) => Next(q + 1, true)
      case Invalid => Fail(ERROR_INVAL)
      case Partial => Fail(ERROR_PART)
    else
      match PrimitiveScan(js, len, p)
      case Closed(q) => Next(q, true)
      case _ => Fail(ERROR_INVAL)
  }

  /**
   * The value jsmn_parse returns without a token array, scanning from p:
   * the number of tokens the text holds (each bracket opening a container,
   * each string, each primitive), or the error a string or primitive scan
   * meets first.  Closing brackets are not checked in this mode.
   */
  function CountFrom(js: seq<Byte>, len: nat, p: nat): (r: int)
    requires len <= |js|
    ensures r == ERROR_INVAL || r == ERROR_PART || r >= 0
    ensures p <= len && r >= 0 ==> r <= len - p
    decreases if p < len then len - p else 0
  {
    if p >= len || js[p] == 0 then 0
    else
      match StepFrom(js, len, p)
      case Fail(code) => code
      case Next(q, counted) => if counted then Plus1(CountFrom(js, len, q)) else CountFrom(js, len, q)
  }

  /** A byte that moves the scan on adds its count, if any, to the count from where it lands. */
  lemma CountFromNext(js: seq<Byte>, len: nat, p: nat, q: nat, counted: bool)
    requires len <= |js| && p < len && js[p] != 0 && StepFrom(js, len, p) == Next(q, counted)
    ensures CountFrom(js, len, p) == if counted then Plus1(CountFrom(js, len, q)) else CountFrom(js, len, q)
  {
  }

  /** Where one pass with a token array leaves the scan and the stack of open containers, judged from the text. */
  datatype PoolMove = Moved(at: nat, counted: bool, open: seq<TokenType>) | Failed(code: int)

  /**
   * What the byte c does to the kinds of the open containers: an opening
   * bracket pushes its kind, a closing bracket pops a matching innermost
   * kind and has no stack to leave (None) when there is none to match,
   * and every other byte leaves the stack as it is.
   */
  function StackStep(c: Byte, open: seq<TokenType>): (r: Option<seq<TokenType>>)
    ensures r.None? <==>
              (c == '}' as int || c == ']' as int) && (|open| == 0 || open[|open| - 1] != BracketKind(c))
    ensures r.Some? && (c == '{' as int || c == '[' as int) ==>
              |r.value| == |open| + 1 && r.value[..|open|] == open && r.value[|open|] == BracketKind(c)
    ensures r.Some? && (c == '}' as int || c == ']' as int) ==> r.value + [BracketKind(c)] == open
    ensures r.Some? && !(c == '{' as int || c == '[' as int || c == '}' as int || c == ']' as int) ==> r.value == open
  {
    if c == '{' as int || c == '[' as int then Some(open + [BracketKind(c)])
    else if c == '}' as int || c == ']' as int then
      if |open| == 0 || open[|open| - 1] != BracketKind(c) then None
      else Some(open[..|open| - 1])
    else Some(open)
  }

  /**
   * One pass of the loop with a token array, on the byte at p, with the
   * kinds of the open containers in `open`: INVAL where StackStep finds no
   * matching container, otherwise the scan moves as StepFrom says and the
   * stack as StackStep says.
   */
  function PoolStep(js: seq<Byte>, len: nat, p: nat, open: seq<TokenType>): (m: PoolMove)
    requires len <= |js| && p < len && js[p] != 0
    ensures m.Moved? ==> p < m.at <= len
    ensures m.Failed? ==> m.code == ERROR_INVAL || m.code == ERROR_PART
  {
    match StackStep(js[p], open)
    case None => Failed(ERROR_INVAL)
    case Some(open') =>
      match StepFrom(js, len, p)
      case Fail(code) => Failed(code)
      case Next(q, counted) => Moved(q, counted, open')
  }

  /**
   * The value jsmn_parse returns with a token pool that does not run out,
   * scanning from p with the open containers `open`: the number of tokens
   * the text holds from p on, or the first error, which is INVAL at a
   * closing bracket without a matching open container, PART when a
   * container is still open at the end, or the error of a string or
   * primitive scan.
   */
  function PoolCountFrom(js: seq<Byte>, len: nat, p: nat, open: seq<TokenType>): (r: int)
    requires len <= |js|
    ensures r == ERROR_INVAL || r == ERROR_PART || r >= 0
    decreases if p < len then len - p else 0
  {
    if p >= len || js[p] == 0 then (if |open| == 0 then 0 else ERROR_PART)
    else
      match PoolStep(js, len, p, open)
      case Failed(code) => code
      case Moved(q, counted, open') =>
        if counted then Plus1(PoolCountFrom(js, len, q, open')) else PoolCountFrom(js, len, q, open')
  }

  /** A byte that moves the scan on adds its count, if any, to the count from where it lands. */
  lemma PoolCountFromNext(js: seq<Byte>, len: nat, p: nat, open: seq<TokenType>, q: nat, counted: bool,
                          open': seq<TokenType>)
    requires len <= |js| && p < len && js[p] != 0 && PoolStep(js, len, p, open) == Moved(q, counted, open')
    ensures PoolCountFrom(js, len, p, open) ==
              if counted then Plus1(PoolCountFrom(js, len, q, open')) else PoolCountFrom(js, len, q, open')
  {
  }

  /** A byte on which the pass fails ends the count with that error. */
  lemma PoolCountFromFail(js: seq<Byte>, len: nat, p: nat, open: seq<TokenType>, code: int)
    requires len <= |js| && p < len && js[p] != 0 && PoolStep(js, len, p, open) == Failed(code)
    ensures PoolCountFrom(js, len, p, open) == code
  {
  }

  /**
   * Where the parse with a pool succeeds, it finds as many tokens as the
   * count without one: the two modes differ only in the errors they see.
   */
  lemma {:induction false} PoolCountAgrees(js: seq<Byte>, len: nat, p: nat, open: seq<TokenType>)
    requires len <= |js|
    ensures PoolCountFrom(js, len, p, open) >= 0 ==> PoolCountFrom(js, len, p, open) == CountFrom(js, len, p)
    ensures CountFrom(js, len, p) < 0 ==> PoolCountFrom(js, len, p, open) < 0
    decreases if p < len then len - p else 0
  {
    if p < len && js[p] != 0 {
      match PoolStep(js, len, p, open)
      case Failed(code) =>
      case Moved(q, counted, open') =>
        PoolCountAgrees(js, len, q, open');
        assert StepFrom(js, len, p) == Next(q, counted);
    }
  }

  /**
   * What an error of one pass says about the text: NOMEM only on a byte
   * that is due a token, INVAL or PART only where PoolStep fails with it.
   */
  predicate PoolFails(js: seq<Byte>, len: nat, p: nat, open: seq<TokenType>, e: int)
    requires len <= |js| && p < len && js[p] != 0
  {
    var m := PoolStep(js, len, p, open);
    if e == ERROR_NOMEM then m.Moved? && m.counted else m == Failed(e)
  }

  /**
   * What one successful pass of jsmn_parse's loop leaves behind, on values:
   * the byte at p0 moved the scan to p1 + 1 as StepFrom says; with a token
   * array (`pooled`) the pool went from ts0 with n0 tokens to ts1 with n1,
   * one more when a token was `added`, and is valid for the next position,
   * its spans still match the text when they did (`keep`), and its open
   * containers changed as StackStep says; without one, only the super token
   * may have changed.
   */
  ghost predicate Stepped(js: seq<Byte>, len: nat, numTokens: nat, keep: bool, pooled: bool, added: bool,
                          p0: nat, ts0: seq<Token>, n0: nat, p1: nat, ts1: seq<Token>, n1: nat, sup1: int)
    requires len <= |js|
  {
    p0 < len && js[p0] != 0 && StepFrom(js, len, p0) == Next(p1 + 1, added) &&
    (pooled ==>
       n1 == n0 + (if added then 1 else 0) && PoolOk(ts1, n1, sup1, numTokens, p1 + 1) &&
       Grows(ts0, ts1, n0, n1) && (keep ==> Spans(js, len, ts1, n1)) &&
       StackStep(js[p0], OpenKinds(ts0, n0)) == Some(OpenKinds(ts1, n1))) &&
    (!pooled ==> n1 == n0 && SupOk(sup1, n1))
  }

  /** A pooled pass, from the facts Stepped gathers. */
  lemma PooledStepped(js: seq<Byte>, len: nat, numTokens: nat, keep: bool, added: bool,
                      p0: nat, ts0: seq<Token>, n0: nat, p1: nat, ts1: seq<Token>, n1: nat, sup1: int)
    requires len <= |js| && p0 < len && js[p0] != 0 && StepFrom(js, len, p0) == Next(p1 + 1, added)
    requires n1 == n0 + (if added then 1 else 0) && PoolOk(ts1, n1, sup1, numTokens, p1 + 1)
    requires Grows(ts0, ts1, n0, n1) && (keep ==> Spans(js, len, ts1, n1))
    requires StackStep(js[p0], OpenKinds(ts0, n0)) == Some(OpenKinds(ts1, n1))
    ensures Stepped(js, len, numTokens, keep, true, added, p0, ts0, n0, p1, ts1, n1, sup1)
  {
  }

  /**
   * One successful pass that lands at p adds its token, if any, to both
   * the count without an array and the pool count from p.
   */
  lemma SteppedCounts(js: seq<Byte>, len: nat, numTokens: nat, keep: bool, pooled: bool, added: bool,
                      p0: nat, ts0: seq<Token>, n0: nat, p: nat, ts1: seq<Token>, n1: nat, sup1: int)
    requires len <= |js| && 0 < p && Stepped(js, len, numTokens, keep, pooled, added, p0, ts0, n0, p - 1, ts1, n1, sup1)
    ensures CountFrom(js, len, p0) == if added then Plus1(CountFrom(js, len, p)) else CountFrom(js, len, p)
    ensures pooled ==>
              PoolCountFrom(js, len, p0, OpenKinds(ts0, n0)) ==
                if added then Plus1(PoolCountFrom(js, len, p, OpenKinds(ts1, n1)))
                else PoolCountFrom(js, len, p, OpenKinds(ts1, n1))
  {
    CountFromNext(js, len, p0, p, added);
    if pooled {
      PoolCountFromNext(js, len, p0, OpenKinds(ts0, n0), p, added, OpenKinds(ts1, n1));
    }
  }

  /**
   * A '{' or '[' with a free token: one pass that opens a container token
   * as the super token, counted, with the pool valid for the next byte.
   */
  lemma OpenStepped(js: seq<Byte>, len: nat, numTokens: nat, keep: bool, p: nat, ts: seq<Token>, n: nat, sup: int,
                    ts1: seq<Token>, n1: nat, sup1: int)
    requires len <= |js| && p < len && (js[p] == '{' as int || js[p] == '[' as int)
    requires PoolOk(ts, n, sup, numTokens, p) && n < numTokens
    requires keep ==> Spans(js, len, ts, n)
    requires ts1 == Opened(ts, n, sup, BracketKind(js[p]), p) && n1 == n + 1 && sup1 == n
    ensures Stepped(js, len, numTokens, keep, true, true, p, ts, n, p, ts1, n1, sup1)
  {
    OpenedOk(ts, n, sup, numTokens, p, BracketKind(js[p]));
    OpenKindsOpened(ts, n, sup, BracketKind(js[p]), p);
    if keep {
      OpenedSpans(js, len, ts, n, sup, p);
    }
  }

  /**
   * A '}' or ']' whose innermost open token is of its kind: one pass that
   * closes that token and makes the next open token below it the super
   * token, with nothing counted and the pool valid for the next byte
   * (the spans of the closed pool are EndedSpans' part).
   */
  lemma CloseStepped(js: seq<Byte>, len: nat, numTokens: nat, keep: bool, p: nat, ts: seq<Token>, n: nat, sup: int,
                     k: nat, ts1: seq<Token>, sup1: int)
    requires len <= |js| && p < len && (js[p] == '}' as int || js[p] == ']' as int)
    requires PoolOk(ts, n, sup, numTokens, p)
    requires k == InnermostOpen(ts, n) && ts[k].kind == BracketKind(js[p])
    requires ts1 == Ended(ts, k, p + 1) && sup1 == InnermostOpen(ts1, n)
    requires keep ==> Spans(js, len, ts1, n)
    ensures Stepped(js, len, numTokens, keep, true, false, p, ts, n, p, ts1, n, sup1)
  {
    CloseBracketStep(js, len, p);
    EndedOk(ts, n, sup, numTokens, p, k, p + 1, ts1, sup1);
    ClosePoolStep(js, len, p, ts, n, k, ts1);
    PooledStepped(js, len, numTokens, keep, false, p, ts, n, p, ts1, n, sup1);
  }

  /** A closing bracket that matches the innermost open container pops it off the stack. */
  lemma ClosePoolStep(js: seq<Byte>, len: nat, p: nat, ts: seq<Token>, n: nat, k: nat, ts1: seq<Token>)
    requires len <= |js| && p < len && (js[p] == '}' as int || js[p] == ']' as int)
    requires n <= |ts| && k == InnermostOpen(ts, n) && ts[k].kind == BracketKind(js[p])
    requires ts1 == Ended(ts, k, p + 1)
    ensures StackStep(js[p], OpenKinds(ts, n)) == Some(OpenKinds(ts1, n))
  {
    OpenKindsEnded(ts, n, p + 1);
  }

  /** A closing bracket with no open container, or one of the other kind on top, fails the pass with INVAL. */
  lemma ClosePoolFails(js: seq<Byte>, len: nat, p: nat, ts: seq<Token>, n: nat, k: int)
    requires len <= |js| && p < len && (js[p] == '}' as int || js[p] == ']' as int)
    requires n <= |ts| && k == InnermostOpen(ts, n) && (k < 0 || ts[k].kind != BracketKind(js[p]))
    ensures PoolFails(js, len, p, OpenKinds(ts, n), ERROR_INVAL)
  {
  }

  /**
   * A string or primitive token t with a free slot, allocated from the scan
   * position and ending by q + 1: one counted pass that leaves the stack of
   * open containers as it was.
   */
  lemma PushedStepped(js: seq<Byte>, len: nat, numTokens: nat, keep: bool, p: nat, ts: seq<Token>, n: nat, sup: int,
                      t: Token, q: nat, ts1: seq<Token>, n1: nat)
    requires len <= |js| && p < len && js[p] != 0 && StepFrom(js, len, p) == Next(q + 1, true)
    requires js[p] != '{' as int && js[p] != '[' as int && js[p] != '}' as int && js[p] != ']' as int
    requires PoolOk(ts, n, sup, numTokens, p) && n < numTokens
    requires p <= t.start <= t.end <= q + 1 && t.start < q + 1
    requires keep ==> Spans(js, len, ts, n) && TokenSpan(js, len, t)
    requires ts1 == Pushed(ts, n, sup, t) && n1 == n + 1
    ensures Stepped(js, len, numTokens, keep, true, true, p, ts, n, q, ts1, n1, sup)
  {
    PushedOk(ts, n, sup, numTokens, p, t, q + 1);
    if keep {
      PushedSpans(js, len, ts, n, sup, t);
    }
    OpenKindsPushed(ts, n, sup, t);
  }

  /** A separator (',', ':' or whitespace) moves the scan on by one byte, counting nothing and changing no token. */
  lemma SkipStepped(js: seq<Byte>, len: nat, numTokens: nat, keep: bool, pooled: bool, p: nat, ts: seq<Token>, n: nat,
                    sup: int, sup1: int)
    requires len <= |js| && p < len
    requires js[p] == ',' as int || js[p] == ':' as int || js[p] == '\t' as int || js[p] == '\r' as int ||
             js[p] == '\n' as int || js[p] == ' ' as int
    requires pooled ==> PoolOk(ts, n, sup, numTokens, p) && (keep ==> Spans(js, len, ts, n))
    requires SupOk(sup1, n)
    ensures Stepped(js, len, numTokens, keep, pooled, false, p, ts, n, p, ts, n, sup1)
  {
    if pooled {
      InBoundsWeaken(ts, n, p, p + 1);
    }
  }

  /** A closing bracket moves the scan on by one byte, counting nothing. */
  lemma CloseBracketStep(js: seq<Byte>, len: nat, p: nat)
    requires len <= |js| && p < len && (js[p] == '}' as int || js[p] == ']' as int)
    ensures StepFrom(js, len, p) == Next(p + 1, false)
  {
  }

  /** The search loops of jsmn_parse: scanning down from tokens[n - 1] for an open token. */
  method LastOpen(tokens: array<Token>, n: nat) returns (i: int)
    requires n <= tokens.Length
    ensures i == InnermostOpen(tokens[..], n)
  {
    i := n - 1;
    while i >= 0 && !(tokens[i].start != -1 && tokens[i].end == -1)
      invariant -1 <= i < n
      invariant forall j :: i < j < n ==> !IsOpen(tokens[j])
      decreases i
    {
      i := i - 1;
    }
    assert forall j :: i < j < n ==> !IsOpen(tokens[..][j]);
  }

  /**
   * Closing the innermost open token k leaves as innermost the last open
   * token below k, which is what the second search of the '}' case finds.
   */
  lemma CloseMovesInnermost(ts: seq<Token>, n: nat, k: nat, e: int)
    requires n <= |ts| && k < n && k == InnermostOpen(ts, n) && e != -1
    ensures InnermostOpen(ts[k := ts[k].(end := e)], n) == InnermostOpen(ts[k := ts[k].(end := e)], k + 1)
    ensures InnermostOpen(ts[k := ts[k].(end := e)], k + 1) == InnermostOpen(ts, k)
  {
    var ts1 := ts[k := ts[k].(end := e)];
    assert forall j :: k <= j < n ==> !IsOpen(ts1[j]);
    InnermostOpenAgrees(ts, ts1, k);
  }

  lemma {:induction false} InnermostOpenAgrees(a: seq<Token>, b: seq<Token>, k: nat)
    requires k < |a| && k < |b| && !IsOpen(b[k])
    requires forall j :: 0 <= j < k ==> a[j] == b[j]
    ensures InnermostOpen(b, k + 1) == InnermostOpen(a, k)
  {
    var r := InnermostOpen(a, k);
    var q := InnermostOpen(b, k + 1);
    assert q < k;
    if r >= 0 {
      assert IsOpen(b[r]);
    }
    if q >= 0 {
      assert IsOpen(a[q]);
    }
  }

  class Parser {
    /** Offset of the byte being scanned. */
    var pos: nat
    /** Next token to allocate. */
    var toknext: nat
    /** The token new children are counted against, or -1. */
    var toksuper: int

    /** What holds between calls for tokens allocated from `tokens[..numTokens]`. */
    ghost predicate Valid(tokens: array?<Token>, numTokens: nat)
      reads this, tokens
    {
      if tokens == null then SupOk(toksuper, toknext)
      else PoolOk(tokens[..], toknext, toksuper, numTokens, pos)
    }

    /** jsmn_init on a new parser. */
    constructor ()
      ensures pos == 0 && toknext == 0 && toksuper == -1
    {
      pos, toknext, toksuper := 0, 0, -1;
    }

    /** jsmn_init: back to the start with no tokens. */
    method Init()
      modifies this
      ensures pos == 0 && toknext == 0 && toksuper == -1
      ensures forall tokens: array?<Token>, n: nat :: tokens != null && n <= tokens.Length ==> Valid(tokens, n)
    {
      pos, toknext, toksuper := 0, 0, -1;
    }

    /**
     * jsmn_alloc_token: hands out tokens[toknext] with no span and no
     * children, or -1 once the pool of numTokens tokens is used up.  The
     * type is left as it was; every caller sets it.
     */
    method AllocToken(tokens: array<Token>, numTokens: nat) returns (idx: int)
      requires numTokens <= tokens.Length
      modifies this`toknext, tokens
      ensures old(toknext) >= numTokens ==>
                idx == -1 && toknext == old(toknext) && tokens[..] == old(tokens[..])
      ensures old(toknext) < numTokens ==>
                idx == old(toknext) && toknext == idx + 1 &&
                tokens[..] == old(tokens[..])[idx := Token(old(tokens[idx].kind), -1, -1, 0)]
    {
      if toknext >= numTokens {
        return -1;
      }
      idx := toknext;
      toknext := toknext + 1;
      tokens[idx] := Token(tokens[idx].kind, -1, -1, 0);
    }

    /** jsmn_parse_primitive, entered on the primitive's first byte. */
    method ParsePrimitive(js: seq<Byte>, len: nat, tokens: array?<Token>, numTokens: nat) returns (r: int)
      requires len <= |js| && pos < len && js[pos] != 0 && !EndsPrimitive(js[pos])
      requires tokens != null ==> numTokens <= tokens.Length
      modifies this, tokens
      ensures toksuper == old(toksuper)
      ensures var s := PrimitiveScan(js, len, old(pos));
              match s
              case Invalid =>
                r == ERROR_INVAL && pos == old(pos) && toknext == old(toknext) &&
                (tokens != null ==> tokens[..] == old(tokens[..]))
              case Partial => false
              case Closed(q) =>
                if tokens == null then r == 0 && pos == q - 1 && toknext == old(toknext)
                else if old(toknext) >= numTokens then
                  r == ERROR_NOMEM && pos == old(pos) && toknext == old(toknext) && tokens[..] == old(tokens[..])
                else
                  r == 0 && pos == q - 1 && old(pos) < q && toknext == old(toknext) + 1 &&
                  tokens[..] == old(tokens[..])[old(toknext) := Token(Primitive, old(pos), q, 0)]
    {
      var start := pos;
      while pos < len && js[pos] != 0 && !EndsPrimitive(js[pos])
        invariant start <= pos <= len
        invariant PrimitiveScan(js, len, start) == PrimitiveScan(js, len, pos)
        invariant toknext == old(toknext) && toksuper == old(toksuper)
        invariant tokens != null ==> tokens[..] == old(tokens[..])
        decreases len - pos
      {
        if js[pos] < 32 || js[pos] >= 127 {
          pos := start;
          return ERROR_INVAL;
        }
        pos := pos + 1;
      }
      // found:
      if tokens == null {
        pos := pos - 1;
        return 0;
      }
      var end := pos;
      var tok := AllocToken(tokens, numTokens);
      if tok < 0 {
        pos := start;
        return ERROR_NOMEM;
      }
      tokens[tok] := Token(Primitive, start, end, 0);
      pos := end - 1;
      return 0;
    }

    /** jsmn_parse_string, entered on the opening quote. */
    method ParseString(js: seq<Byte>, len: nat, tokens: array?<Token>, numTokens: nat) returns (r: int)
      requires len <= |js| && pos < len && js[pos] == '"' as int
      requires tokens != null ==> numTokens <= tokens.Length
      modifies this, tokens
      ensures toksuper == old(toksuper)
      ensures var s := StringScan(js, len, old(pos) + 1);
              match s
              case Invalid =>
                r == ERROR_INVAL && pos == old(pos) && toknext == old(toknext) &&
                (tokens != null ==> tokens[..] == old(tokens[..]))
              case Partial =>
                r == ERROR_PART && pos == old(pos) && toknext == old(toknext) &&
                (tokens != null ==> tokens[..] == old(tokens[..]))
              case Closed(q) =>
                if tokens == null then r == 0 && pos == q && toknext == old(toknext)
                else if old(toknext) >= numTokens then
                  r == ERROR_NOMEM && pos == old(pos) && toknext == old(toknext) && tokens[..] == old(tokens[..])
                else
                  r == 0 && pos == q && toknext == old(toknext) + 1 &&
                  tokens[..] == old(tokens[..])[old(toknext) := Token(String, old(pos) + 1, q, 0)]
    {
      var start := pos;
      pos := pos + 1;
      while pos < len && js[pos] != 0
        invariant start < pos <= len
        invariant StringScan(js, len, start + 1) == StringScan(js, len, pos)
        invariant toknext == old(toknext) && toksuper == old(toksuper)
        invariant tokens != null ==> tokens[..] == old(tokens[..])
        decreases len - pos
      {
        var c := js[pos];
        if c == '"' as int {
          if tokens == null {
            return 0;
          }
          var tok := AllocToken(tokens, numTokens);
          if tok < 0 {
            pos := start;
            return ERROR_NOMEM;
          }
          tokens[tok] := Token(String, start + 1, pos, 0);
          return 0;
        }
        var q := SkipInString(js, len, pos);
        if q < 0 {
          pos := start;
          return ERROR_INVAL;
        }
        pos := q;
      }
      pos := start;
      return ERROR_PART;
    }

    /**
     * tokens[toksuper].size++ when there is a super token: the token just
     * parsed is counted as one more child of it.
     */
    method CountChild(tokens: array<Token>)
      requires toksuper < tokens.Length
      modifies tokens
      ensures tokens[..] == Bump(old(tokens[..]), toksuper)
    {
      if toksuper >= 0 {
        tokens[toksuper] := tokens[toksuper].(size := tokens[toksuper].size + 1);
      }
    }

    /**
     * The '{' or '[' case of jsmn_parse with a token array: a new container
     * token starting at the bracket, counted as a child of the super token
     * and becoming the super token itself.
     */
    method OpenStep(js: seq<Byte>, len: nat, tokens: array<Token>, numTokens: nat) returns (r: int)
      requires len <= |js| && pos < len && (js[pos] == '{' as int || js[pos] == '[' as int)
      requires toknext <= numTokens <= tokens.Length && SupOk(toksuper, toknext)
      modifies this`toknext, this`toksuper, tokens
      ensures old(toknext) == numTokens ==>
                r == ERROR_NOMEM && toknext == old(toknext) && toksuper == old(toksuper) &&
                tokens[..] == old(tokens[..])
      ensures old(toknext) < numTokens ==>
                r == 0 && toknext == old(toknext) + 1 && toksuper == old(toknext) &&
                tokens[..] == Opened(old(tokens[..]), old(toknext), old(toksuper), BracketKind(js[pos]), pos)
    {
      ghost var ts := tokens[..];
      var tok := AllocToken(tokens, numTokens);
      if tok < 0 {
        return ERROR_NOMEM;
      }
      CountChild(tokens);
      tokens[tok] := tokens[tok].(kind := BracketKind(js[pos]), start := pos);
      assert tokens[..] == Opened(ts, tok, toksuper, BracketKind(js[pos]), pos);
      toksuper := toknext - 1;
      return 0;
    }

    /**
     * The '}' or ']' case of jsmn_parse with a token array: the innermost
     * open token must be of the closing bracket's kind; it gets its end,
     * and the next open token below it, if any, becomes the super token.
     */
    method CloseStep(tokens: array<Token>, want: TokenType, end: int) returns (r: int)
      requires toknext <= tokens.Length && end != -1
      modifies this`toksuper, tokens
      ensures var k := InnermostOpen(old(tokens[..]), toknext);
              if k < 0 || old(tokens[k].kind) != want then
                r == ERROR_INVAL && toksuper == old(toksuper) && tokens[..] == old(tokens[..])
              else
                r == 0 && tokens[..] == Ended(old(tokens[..]), k, end) &&
                toksuper == InnermostOpen(tokens[..], toknext)
    {
      ghost var ts := tokens[..];
      var i := LastOpen(tokens, toknext);
      if i < 0 {
        return ERROR_INVAL;
      }
      if tokens[i].kind != want {
        return ERROR_INVAL;
      }
      toksuper := -1;
      tokens[i] := tokens[i].(end := end);
      assert tokens[..] == Ended(ts, i, end);
      CloseMovesInnermost(ts, toknext, i, end);
      i := LastOpen(tokens, i + 1);
      if i >= 0 {
        toksuper := i;
      }
      return 0;
    }

    /**
     * The ',' case of jsmn_parse with a token array: when the super token
     * is a key rather than a container, the innermost open container
     * becomes the super token again (open tokens are all containers).
     */
    method CommaStep(tokens: array<Token>, numTokens: nat)
      requires Valid(tokens, numTokens)
      modifies this`toksuper
      ensures toksuper ==
                if old(toksuper) != -1 && !IsContainer(tokens[old(toksuper)].kind) &&
                   InnermostOpen(tokens[..], toknext) >= 0
                then InnermostOpen(tokens[..], toknext)
                else old(toksuper)
    {
      if toksuper != -1 && tokens[toksuper].kind != Array && tokens[toksuper].kind != Object {
        ghost var ts := tokens[..];
        var i: int := toknext - 1;
        while i >= 0
          invariant -1 <= i < toknext
          invariant forall j :: i < j < toknext ==> !IsOpen(ts[j])
          invariant toksuper == old(toksuper)
          decreases i
        {
          if tokens[i].kind == Array || tokens[i].kind == Object {
            if tokens[i].start != -1 && tokens[i].end == -1 {
              toksuper := i;
              assert i == InnermostOpen(ts, toknext);
              return;
            }
          }
          i := i - 1;
        }
      }
    }

    /**
     * One pass of jsmn_parse's loop, on the byte at pos: either an error,
     * with the parser and the pool as they were, or the state from which the
     * loop moves on to pos + 1, with `added` telling whether a token was
     * counted.  Without a token array brackets and commas change nothing.
     */
    method ParseByte(js: seq<Byte>, len: nat, tokens: array?<Token>, numTokens: nat, ghost keep: bool)
      returns (e: int, added: bool)
      requires len <= |js| && pos < len && js[pos] != 0
      requires Valid(tokens, numTokens)
      requires keep ==> tokens != null && Spans(js, len, tokens[..], toknext)
      modifies this, tokens
      ensures e == 0 || e == ERROR_NOMEM || e == ERROR_INVAL || e == ERROR_PART
      ensures e < 0 ==>
                pos == old(pos) && toknext == old(toknext) && toksuper == old(toksuper) &&
                (tokens != null ==> tokens[..] == old(tokens[..]))
      ensures e == ERROR_NOMEM ==> tokens != null && toknext == numTokens
      ensures e < 0 && tokens == null ==> StepFrom(js, len, old(pos)) == Fail(e)
      ensures e < 0 && tokens != null ==> PoolFails(js, len, old(pos), OpenKinds(old(tokens[..]), old(toknext)), e)
      ensures e == 0 ==>
                Stepped(js, len, numTokens, keep, tokens != null, added,
                        old(pos), old(Contents(tokens)), old(toknext), pos, Contents(tokens), toknext, toksuper)
    {
      var c := js[pos];
      added := false;
      e := 0;
      if c == '{' as int || c == '[' as int {
        added := true;
        if tokens != null {
          e := OpenCase(js, len, tokens, numTokens, keep);
        }
      } else if c == '}' as int || c == ']' as int {
        if tokens != null {
          e := CloseCase(js, len, tokens, numTokens, keep);
        }
      } else if c == '"' as int {
        added := true;
        e := StringCase(js, len, tokens, numTokens, keep);
      } else if c == ',' as int {
        ghost var sup := toksuper;
        if tokens != null {
          CommaStep(tokens, numTokens);
        }
        SkipStepped(js, len, numTokens, keep, tokens != null, pos, Contents(tokens), toknext, sup, toksuper);
      } else if c == ':' as int {
        ghost var sup := toksuper;
        toksuper := toknext - 1;
        SkipStepped(js, len, numTokens, keep, tokens != null, pos, Contents(tokens), toknext, sup, toksuper);
      } else if c == '\t' as int || c == '\r' as int || c == '\n' as int || c == ' ' as int {
        SkipStepped(js, len, numTokens, keep, tokens != null, pos, Contents(tokens), toknext, toksuper, toksuper);
      } else {
        added := true;
        e := PrimitiveCase(js, len, tokens, numTokens, keep);
      }
    }

    /** OpenStep, with what it keeps of the pool's validity. */
    method OpenCase(js: seq<Byte>, len: nat, tokens: array<Token>, numTokens: nat, ghost keep: bool) returns (e: int)
      requires len <= |js| && pos < len && (js[pos] == '{' as int || js[pos] == '[' as int)
      requires Valid(tokens, numTokens)
      requires keep ==> Spans(js, len, tokens[..], toknext)
      modifies this`toknext, this`toksuper, tokens
      ensures e == 0 || e == ERROR_NOMEM
      ensures e < 0 ==>
                toknext == old(toknext) && toksuper == old(toksuper) && tokens[..] == old(tokens[..]) &&
                toknext == numTokens
      ensures e < 0 ==> PoolFails(js, len, pos, OpenKinds(old(tokens[..]), old(toknext)), e)
      ensures e == 0 ==>
                Stepped(js, len, numTokens, keep, true, true,
                        pos, old(tokens[..]), old(toknext), pos, tokens[..], toknext, toksuper)
    {
      ghost var ts, n, sup := tokens[..], toknext, toksuper;
      e := OpenStep(js, len, tokens, numTokens);
      if e == 0 {
        OpenStepped(js, len, numTokens, keep, pos, ts, n, sup, tokens[..], toknext, toksuper);
      }
    }

    /** CloseStep, with what it keeps of the pool's validity. */
    method CloseCase(js: seq<Byte>, len: nat, tokens: array<Token>, numTokens: nat, ghost keep: bool) returns (e: int)
      requires len <= |js| && pos < len && (js[pos] == '}' as int || js[pos] == ']' as int)
      requires Valid(tokens, numTokens)
      requires keep ==> Spans(js, len, tokens[..], toknext)
      modifies this`toksuper, tokens
      ensures e == 0 || e == ERROR_INVAL
      ensures e < 0 ==> toksuper == old(toksuper) && tokens[..] == old(tokens[..])
      ensures e < 0 ==> PoolFails(js, len, pos, OpenKinds(old(tokens[..]), toknext), e)
      ensures e == 0 ==>
                Stepped(js, len, numTokens, keep, true, false,
                        pos, old(tokens[..]), toknext, pos, tokens[..], toknext, toksuper)
    {
      ghost var ts, sup := tokens[..], toksuper;
      ghost var k := InnermostOpen(ts, toknext);
      e := CloseStep(tokens, BracketKind(js[pos]), pos + 1);
      if e == 0 {
        assert 0 <= k && ts[k].kind == BracketKind(js[pos]) && tokens[..] == Ended(ts, k, pos + 1);
        if keep {
          EndedSpans(js, len, ts, toknext, k, pos + 1);
        }
        CloseStepped(js, len, numTokens, keep, pos, ts, toknext, sup, k, tokens[..], toksuper);
      } else {
        ClosePoolFails(js, len, pos, ts, toknext, k);
      }
    }

    /** The '"' case of jsmn_parse: a string token, counted against the super token. */
    method StringCase(js: seq<Byte>, len: nat, tokens: array?<Token>, numTokens: nat, ghost keep: bool) returns (e: int)
      requires len <= |js| && pos < len && js[pos] == '"' as int
      requires Valid(tokens, numTokens)
      requires keep ==> tokens != null && Spans(js, len, tokens[..], toknext)
      modifies this, tokens
      ensures e == 0 || e == ERROR_NOMEM || e == ERROR_INVAL || e == ERROR_PART
      ensures e < 0 ==>
                pos == old(pos) && toknext == old(toknext) && toksuper == old(toksuper) &&
                (tokens != null ==> tokens[..] == old(tokens[..]))
      ensures e == ERROR_NOMEM ==> tokens != null && toknext == numTokens
      ensures e < 0 && tokens == null ==> StepFrom(js, len, old(pos)) == Fail(e)
      ensures e < 0 && tokens != null ==> PoolFails(js, len, old(pos), OpenKinds(old(tokens[..]), old(toknext)), e)
      ensures e == 0 ==>
                Stepped(js, len, numTokens, keep, tokens != null, true,
                        old(pos), old(Contents(tokens)), old(toknext), pos, Contents(tokens), toknext, toksuper)
    {
      ghost var p, ts, n, sup := pos, Contents(tokens), toknext, toksuper;
      e := ParseString(js, len, tokens, numTokens);
      if e < 0 || tokens == null {
        return;
      }
      assert StringScan(js, len, p + 1) == Closed(pos);
      CountPushed(js, len, tokens, numTokens, keep, p, ts, n, Token(String, p + 1, pos, 0));
    }

    /**
     * The end of the '"' and default cases: the string or primitive t just
     * written to the last allocated slot is counted as a child of the super
     * token, which completes one counted pass from p.
     */
    method CountPushed(js: seq<Byte>, len: nat, tokens: array<Token>, numTokens: nat, ghost keep: bool,
                       ghost p: nat, ghost ts: seq<Token>, ghost n: nat, ghost t: Token)
      requires len <= |js| && p < len && js[p] != 0 && StepFrom(js, len, p) == Next(pos + 1, true)
      requires js[p] != '{' as int && js[p] != '[' as int && js[p] != '}' as int && js[p] != ']' as int
      requires toknext == n + 1 && PoolOk(ts, n, toksuper, numTokens, p) && n < numTokens
      requires p <= t.start <= t.end <= pos + 1 && t.start < pos + 1
      requires keep ==> Spans(js, len, ts, n) && TokenSpan(js, len, t)
      requires tokens[..] == ts[n := t]
      modifies tokens
      ensures Stepped(js, len, numTokens, keep, true, true, p, ts, n, pos, Contents(tokens), toknext, toksuper)
    {
      CountChild(tokens);
      PushedStepped(js, len, numTokens, keep, p, ts, n, toksuper, t, pos, Contents(tokens), toknext);
    }

    /** The default case of jsmn_parse: a primitive token, counted against the super token. */
    method PrimitiveCase(js: seq<Byte>, len: nat, tokens: array?<Token>, numTokens: nat, ghost keep: bool) returns (e: int)
      requires len <= |js| && pos < len && js[pos] != 0 && !EndsPrimitive(js[pos])
      requires js[pos] != '"' as int && js[pos] != '{' as int && js[pos] != '[' as int
      requires Valid(tokens, numTokens)
      requires keep ==> tokens != null && Spans(js, len, tokens[..], toknext)
      modifies this, tokens
      ensures e == 0 || e == ERROR_NOMEM || e == ERROR_INVAL
      ensures e < 0 ==>
                pos == old(pos) && toknext == old(toknext) && toksuper == old(toksuper) &&
                (tokens != null ==> tokens[..] == old(tokens[..]))
      ensures e == ERROR_NOMEM ==> tokens != null && toknext == numTokens
      ensures e < 0 && tokens == null ==> StepFrom(js, len, old(pos)) == Fail(e)
      ensures e < 0 && tokens != null ==> PoolFails(js, len, old(pos), OpenKinds(old(tokens[..]), old(toknext)), e)
      ensures e == 0 ==>
                Stepped(js, len, numTokens, keep, tokens != null, true,
                        old(pos), old(Contents(tokens)), old(toknext), pos, Contents(tokens), toknext, toksuper)
    {
      ghost var p, ts, n, sup := pos, Contents(tokens), toknext, toksuper;
      e := ParsePrimitive(js, len, tokens, numTokens);
      if e < 0 || tokens == null {
        return;
      }
      assert PrimitiveScan(js, len, p) == Closed(pos + 1);
      CountPushed(js, len, tokens, numTokens, keep, p, ts, n, Token(Primitive, p, pos + 1, 0));
    }

    /**
     * One pass of jsmn_parse's loop including the move to the next byte:
     * on success the parser is valid at the new position, the pool has
     * grown by the token counted, and the count from the old position is
     * the count from the new one, plus one when a token was `added`.
     */
    method Pass(js: seq<Byte>, len: nat, tokens: array?<Token>, numTokens: nat, ghost keep: bool)
      returns (e: int, added: bool)
      requires len <= |js| && pos < len && js[pos] != 0
      requires Valid(tokens, numTokens)
      requires keep ==> tokens != null && Spans(js, len, tokens[..], toknext)
      modifies this, tokens
      ensures Valid(tokens, numTokens)
      ensures e == 0 || e == ERROR_NOMEM || e == ERROR_INVAL || e == ERROR_PART
      ensures e < 0 ==>
                pos == old(pos) && toknext == old(toknext) && (tokens != null ==> tokens[..] == old(tokens[..]))
      ensures e == ERROR_NOMEM ==> tokens != null && toknext == numTokens
      ensures e < 0 && tokens == null ==> CountFrom(js, len, old(pos)) == e
      ensures e < 0 && tokens != null ==> PoolFails(js, len, old(pos), OpenKinds(old(tokens[..]), old(toknext)), e)
      ensures e == 0 && tokens != null ==>
                PoolCountFrom(js, len, old(pos), OpenKinds(old(tokens[..]), old(toknext))) ==
                  (if added then Plus1(PoolCountFrom(js, len, pos, OpenKinds(tokens[..], toknext)))
                   else PoolCountFrom(js, len, pos, OpenKinds(tokens[..], toknext)))
      ensures e == 0 ==>
                CountFrom(js, len, old(pos)) ==
                  (if added then Plus1(CountFrom(js, len, pos)) else CountFrom(js, len, pos))
      ensures e == 0 ==> old(pos) < pos
      ensures e == 0 && tokens == null ==> toknext == old(toknext)
      ensures e == 0 && tokens != null ==>
                toknext == old(toknext) + (if added then 1 else 0) && Grows(old(tokens[..]), tokens[..], old(toknext), toknext)
      ensures e == 0 && keep ==> Spans(js, len, tokens[..], toknext)
    {
      ghost var p0, ts0, n0 := pos, Contents(tokens), toknext;
      e, added := ParseByte(js, len, tokens, numTokens, keep);
      if e == 0 {
        ghost var ts1 := Contents(tokens);
        pos := pos + 1;
        assert Contents(tokens) == ts1;
        SteppedCounts(js, len, numTokens, keep, tokens != null, added, p0, ts0, n0, pos, Contents(tokens), toknext, toksuper);
      }
    }

    /**
     * The check at the end of jsmn_parse, from the newest token down: is a
     * container still open, that is, is the stack of open kinds not empty?
     */
    method OpenLeft(tokens: array<Token>, numTokens: nat) returns (left: bool)
      requires Valid(tokens, numTokens)
      ensures left <==> |OpenKinds(tokens[..], toknext)| > 0
      ensures !left ==> forall i :: 0 <= i < toknext ==> tokens[i].end != -1
    {
      var i: int := toknext - 1;
      while i >= 0
        invariant -1 <= i < toknext
        invariant forall j :: i < j < toknext ==> tokens[j].end != -1
        decreases i
      {
        if tokens[i].start != -1 && tokens[i].end == -1 {
          assert IsOpen(tokens[..][i]);
          return true;
        }
        i := i - 1;
      }
      OpenKindsNoneAbove(tokens[..], 0, toknext);
      return false;
    }

    /**
     * jsmn_parse: scans js[pos..len) (stopping at a NUL), allocating tokens
     * from tokens[..numTokens], or only counting them when tokens is null.
     * The result is the token count, or NOMEM when the pool runs out, INVAL
     * on a malformed string, primitive or closing bracket, and PART on an
     * unterminated string or a container still open at the end.
     */
    method Parse(js: seq<Byte>, len: nat, tokens: array?<Token>, numTokens: nat) returns (r: int)
      requires len <= |js|
      requires Valid(tokens, numTokens)
      modifies this, tokens
      ensures Valid(tokens, numTokens)
      ensures r >= 0 || r == ERROR_NOMEM || r == ERROR_INVAL || r == ERROR_PART
      ensures r >= 0 ==> r == old(toknext) + CountFrom(js, len, old(pos))
      ensures CountFrom(js, len, old(pos)) < 0 ==> r < 0
      ensures tokens == null ==>
                toknext == old(toknext) &&
                r == (if CountFrom(js, len, old(pos)) < 0 then CountFrom(js, len, old(pos))
                      else old(toknext) + CountFrom(js, len, old(pos)))
      ensures r == ERROR_NOMEM ==> tokens != null && toknext == numTokens
      ensures tokens != null ==> Grows(old(tokens[..]), tokens[..], old(toknext), toknext)
      ensures tokens != null && old(Spans(js, len, tokens[..], toknext)) ==> Spans(js, len, tokens[..], toknext)
      ensures tokens != null ==> Ordered(tokens[..], toknext)
      ensures tokens != null && r >= 0 ==>
                r == toknext && (pos >= len || js[pos] == 0) &&
                forall i :: 0 <= i < toknext ==> tokens[i].end != -1
      ensures tokens != null && r != ERROR_NOMEM ==>
                var a := old(PoolCountFrom(js, len, pos, OpenKinds(tokens[..], toknext)));
                r == if a < 0 then a else old(toknext) + a
      ensures tokens != null ==>
                var a := old(PoolCountFrom(js, len, pos, OpenKinds(tokens[..], toknext)));
                0 <= a && old(toknext) + a <= numTokens ==> r != ERROR_NOMEM
    {
      ghost var keep := tokens != null && Spans(js, len, tokens[..], toknext);
      var n0 := toknext;
      var e, found := Scan(js, len, tokens, numTokens, keep);
      if e < 0 {
        return e;
      }
      if tokens != null {
        var left := OpenLeft(tokens, numTokens);
        if left {
          return ERROR_PART;
        }
      }
      return n0 + found;
    }

    /**
     * The loop of jsmn_parse: passes until the end of the text, a NUL or an
     * error.  The counts from where it started are the `found` tokens plus
     * the counts from where it stopped; an error other than NOMEM is the
     * counts' own, and NOMEM came on a counted byte past the pool's end.
     */
    method Scan(js: seq<Byte>, len: nat, tokens: array?<Token>, numTokens: nat, ghost keep: bool)
      returns (e: int, found: nat)
      requires len <= |js|
      requires Valid(tokens, numTokens)
      requires keep ==> tokens != null && Spans(js, len, tokens[..], toknext)
      modifies this, tokens
      ensures Valid(tokens, numTokens)
      ensures keep ==> Spans(js, len, tokens[..], toknext)
      ensures tokens != null ==> Grows(old(tokens[..]), tokens[..], old(toknext), toknext) && toknext == old(toknext) + found
      ensures tokens == null ==> toknext == old(toknext)
      ensures e == 0 || e == ERROR_NOMEM || e == ERROR_INVAL || e == ERROR_PART
      ensures e == 0 ==> (pos >= len || js[pos] == 0)
      ensures e == 0 ==> Tally(old(CountFrom(js, len, pos)), found, CountFrom(js, len, pos))
      ensures e == 0 && tokens != null ==>
                Tally(old(PoolCountFrom(js, len, pos, OpenKinds(tokens[..], toknext))), found,
                      PoolCountFrom(js, len, pos, OpenKinds(tokens[..], toknext)))
      ensures e < 0 && tokens == null ==> e == old(CountFrom(js, len, pos))
      ensures e < 0 && tokens != null && e != ERROR_NOMEM ==> e == old(PoolCountFrom(js, len, pos, OpenKinds(tokens[..], toknext)))
      ensures e == ERROR_NOMEM ==>
                tokens != null && toknext == numTokens &&
                (var a := old(PoolCountFrom(js, len, pos, OpenKinds(tokens[..], toknext))); a < 0 || found < a)
    {
      ghost var ts0 := Contents(tokens);
      ghost var n0 := toknext;
      ghost var total := CountFrom(js, len, pos);
      ghost var ptotal := if tokens == null then 0 else PoolCountFrom(js, len, pos, OpenKinds(ts0, n0));
      found := 0;
      while pos < len && js[pos] != 0
        invariant Valid(tokens, numTokens)
        invariant keep ==> tokens != null && Spans(js, len, tokens[..], toknext)
        invariant tokens != null ==> Grows(ts0, tokens[..], n0, toknext) && toknext == n0 + found
        invariant tokens == null ==> toknext == n0
        invariant Tally(total, found, CountFrom(js, len, pos))
        invariant tokens != null ==> Tally(ptotal, found, PoolCountFrom(js, len, pos, OpenKinds(tokens[..], toknext)))
        decreases len - pos
      {
        ghost var p, ts, n := pos, Contents(tokens), toknext;
        var added;
        e, added := Pass(js, len, tokens, numTokens, keep);
        if e < 0 {
          if tokens != null {
            PoolFailsCount(js, len, p, OpenKinds(ts, n), e);
          }
          return;
        }
        TallyStep(total, found, CountFrom(js, len, p), CountFrom(js, len, pos), added);
        if tokens != null {
          TallyStep(ptotal, found, PoolCountFrom(js, len, p, OpenKinds(ts, n)),
                    PoolCountFrom(js, len, pos, OpenKinds(tokens[..], toknext)), added);
          GrowsTrans(ts0, ts, tokens[..], n0, n, toknext);
        }
        if added {
          found := found + 1;
        }
      }
      e := 0;
    }
  }

  /**
   * The count from where a parse started, `total`, in terms of the `found`
   * tokens so far and the count `rest` from the current byte.
   */
  predicate Tally(total: int, found: int, rest: int)
  {
    (rest >= 0 ==> total == found + rest) && (rest < 0 ==> total == rest)
  }

  /** A pass whose count from the old byte is `rest0` keeps the tally with its token found. */
  lemma TallyStep(total: int, found: int, rest0: int, rest1: int, added: bool)
    requires Tally(total, found, rest0) && rest0 == if added then Plus1(rest1) else rest1
    ensures Tally(total, found + (if added then 1 else 0), rest1)
  {
  }

  /**
   * A pass that fails with an error other than NOMEM ends the pool count
   * with that error; one that fails with NOMEM was due a token.
   */
  lemma PoolFailsCount(js: seq<Byte>, len: nat, p: nat, open: seq<TokenType>, e: int)
    requires len <= |js| && p < len && js[p] != 0 && PoolFails(js, len, p, open, e)
    ensures e != ERROR_NOMEM ==> PoolCountFrom(js, len, p, open) == e
    ensures e == ERROR_NOMEM ==> PoolCountFrom(js, len, p, open) != 0
  {
    match PoolStep(js, len, p, open)
    case Failed(code) =>
      PoolCountFromFail(js, len, p, open, code);
    case Moved(q, counted, open') =>
      PoolCountFromNext(js, len, p, open, q, counted, open');
  }

  /** The nested arrays of jsmn.c's own parsing test: "[1, [2, [3, [4], 5], 6], 7]". */
  const NESTED_ARRAYS: seq<Byte> :=
    ['[' as int, '1' as int, ',' as int, ' ' as int, '[' as int, '2' as int, ',' as int, ' ' as int, '[' as int] +
    ['3' as int, ',' as int, ' ' as int, '[' as int, '4' as int, ']' as int, ',' as int, ' ' as int, '5' as int] +
    [']' as int, ',' as int, ' ' as int, '6' as int, ']' as int, ',' as int, ' ' as int, '7' as int, ']' as int]

  /** A text whose 27 bytes are those of NESTED_ARRAYS, one by one. */
  ghost predicate IsNestedArrays(s: seq<Byte>)
  {
    |s| == 27 &&
    s[0] == '[' as int && s[1] == '1' as int && s[2] == ',' as int &&
            s[3] == ' ' as int && s[4] == '[' as int && s[5] == '2' as int &&
            s[6] == ',' as int && s[7] == ' ' as int && s[8] == '[' as int &&
            s[9] == '3' as int && s[10] == ',' as int && s[11] == ' ' as int &&
            s[12] == '[' as int && s[13] == '4' as int && s[14] == ']' as int &&
            s[15] == ',' as int && s[16] == ' ' as int && s[17] == '5' as int &&
            s[18] == ']' as int && s[19] == ',' as int && s[20] == ' ' as int &&
            s[21] == '6' as int && s[22] == ']' as int && s[23] == ',' as int &&
            s[24] == ' ' as int && s[25] == '7' as int && s[26] == ']' as int
  }

  /** The bytes of that text, one by one. */
  lemma NestedArraysBytes()
    ensures IsNestedArrays(NESTED_ARRAYS)
  {
  }

  /** That text holds eleven tokens: four arrays and seven primitives. */
  lemma NestedArraysCount()
    ensures |NESTED_ARRAYS| == 27
    ensures CountFrom(NESTED_ARRAYS, 27, 0) == 11
  {
    NestedArraysBytes();
    NestedArraysPoolFrom0(NESTED_ARRAYS);
    PoolCountAgrees(NESTED_ARRAYS, 27, 0, []);
  }

  /**
   * jsmn.c's own test of that text: a fresh parser with room for the
   * tokens finds all eleven, every one of them closed and inside the text.
   */
  method ParseNestedArrays(text: seq<Byte>, tokens: array<Token>) returns (r: int)
    requires IsNestedArrays(text) && 11 <= tokens.Length
    modifies tokens
    ensures r == 11
    ensures forall i :: 0 <= i < 11 ==> tokens[i].end != -1 && TokenSpan(text, 27, tokens[i])
  {
    var parser := new Parser();
    NestedArraysPoolFrom0(text);
    r := parser.Parse(text, 27, tokens, tokens.Length);
  }

  /** A '[' pushes an array on the stack of open containers and is counted. */
  lemma PoolOpenArray(js: seq<Byte>, len: nat, p: nat, open: seq<TokenType>)
    requires len <= |js| && p < len && js[p] == '[' as int
    ensures PoolCountFrom(js, len, p, open) == Plus1(PoolCountFrom(js, len, p + 1, open + [Array]))
  {
    assert PoolStep(js, len, p, open) == Moved(p + 1, true, open + [Array]);
  }

  /** A ']' on an open array pops it and is not counted. */
  lemma PoolCloseArray(js: seq<Byte>, len: nat, p: nat, open: seq<TokenType>)
    requires len <= |js| && p < len && js[p] == ']' as int && |open| > 0 && open[|open| - 1] == Array
    ensures PoolCountFrom(js, len, p, open) == PoolCountFrom(js, len, p + 1, open[..|open| - 1])
  {
    assert PoolStep(js, len, p, open) == Moved(p + 1, false, open[..|open| - 1]);
  }

  /** A ',' or a blank moves the pool count one byte on, counting nothing. */
  lemma PoolSkip(js: seq<Byte>, len: nat, p: nat, open: seq<TokenType>)
    requires len <= |js| && p < len && (js[p] == ',' as int || js[p] == ' ' as int)
    ensures PoolCountFrom(js, len, p, open) == PoolCountFrom(js, len, p + 1, open)
  {
    assert PoolStep(js, len, p, open) == Moved(p + 1, false, open);
  }

  /** A one-digit primitive before a ',' or a ']' is counted, and the scan stops at that delimiter. */
  lemma PoolDigit(js: seq<Byte>, len: nat, p: nat, open: seq<TokenType>)
    requires len <= |js| && p + 1 < len && '0' as int <= js[p] <= '9' as int
    requires js[p + 1] == ',' as int || js[p + 1] == ']' as int
    ensures PoolCountFrom(js, len, p, open) == Plus1(PoolCountFrom(js, len, p + 1, open))
  {
    assert PrimitiveScan(js, len, p + 1) == Closed(p + 1);
    assert PoolStep(js, len, p, open) == Moved(p + 1, true, open);
  }

  /**
   * With a pool, too, that text holds eleven tokens: each ']' closes the
   * array opened last, so no error is met and nothing is left open. The
   * count is taken in stretches of a few bytes, each from where the next
   * one starts, over any text with those bytes.
   */
  lemma NestedArraysPoolCount()
    ensures PoolCountFrom(NESTED_ARRAYS, 27, 0, []) == 11
  {
    NestedArraysBytes();
    NestedArraysPoolFrom0(NESTED_ARRAYS);
  }

  /** The pool count of a text with those bytes from byte 0 on. */
  lemma NestedArraysPoolFrom0(s: seq<Byte>)
    requires IsNestedArrays(s)
    ensures PoolCountFrom(s, 27, 0, []) == 11
  {
    NestedArraysPoolFrom4(s);
    PoolOpenArray(s, 27, 0, []);
    assert [] + [Array] == [Array];
    PoolDigit(s, 27, 1, [Array]);
    PoolSkip(s, 27, 2, [Array]);
    PoolSkip(s, 27, 3, [Array]);
  }

  /** The pool count of a text with those bytes from byte 4 on. */
  lemma NestedArraysPoolFrom4(s: seq<Byte>)
    requires IsNestedArrays(s)
    ensures PoolCountFrom(s, 27, 4, [Array]) == 9
  {
    NestedArraysPoolFrom8(s);
    PoolOpenArray(s, 27, 4, [Array]);
    assert [Array] + [Array] == [Array, Array];
    PoolDigit(s, 27, 5, [Array, Array]);
    PoolSkip(s, 27, 6, [Array, Array]);
    PoolSkip(s, 27, 7, [Array, Array]);
  }

  /** The pool count of a text with those bytes from byte 8 on. */
  lemma NestedArraysPoolFrom8(s: seq<Byte>)
    requires IsNestedArrays(s)
    ensures PoolCountFrom(s, 27, 8, [Array, Array]) == 7
  {
    NestedArraysPoolFrom12(s);
    PoolOpenArray(s, 27, 8, [Array, Array]);
    assert [Array, Array] + [Array] == [Array, Array, Array];
    PoolDigit(s, 27, 9, [Array, Array, Array]);
    PoolSkip(s, 27, 10, [Array, Array, Array]);
    PoolSkip(s, 27, 11, [Array, Array, Array]);
  }

  /** The pool count of a text with those bytes from byte 12 on. */
  lemma NestedArraysPoolFrom12(s: seq<Byte>)
    requires IsNestedArrays(s)
    ensures PoolCountFrom(s, 27, 12, [Array, Array, Array]) == 5
  {
    NestedArraysPoolFrom16(s);
    PoolOpenArray(s, 27, 12, [Array, Array, Array]);
    assert [Array, Array, Array] + [Array] == [Array, Array, Array, Array];
    PoolDigit(s, 27, 13, [Array, Array, Array, Array]);
    PoolCloseArray(s, 27, 14, [Array, Array, Array, Array]);
    assert [Array, Array, Array, Array][..3] == [Array, Array, Array];
    PoolSkip(s, 27, 15, [Array, Array, Array]);
  }

  /** The pool count of a text with those bytes from byte 16 on. */
  lemma NestedArraysPoolFrom16(s: seq<Byte>)
    requires IsNestedArrays(s)
    ensures PoolCountFrom(s, 27, 16, [Array, Array, Array]) == 3
  {
    NestedArraysPoolFrom20(s);
    PoolSkip(s, 27, 16, [Array, Array, Array]);
    PoolDigit(s, 27, 17, [Array, Array, Array]);
    PoolCloseArray(s, 27, 18, [Array, Array, Array]);
    assert [Array, Array, Array][..2] == [Array, Array];
    PoolSkip(s, 27, 19, [Array, Array]);
  }

  /** The pool count of a text with those bytes from byte 20 on. */
  lemma NestedArraysPoolFrom20(s: seq<Byte>)
    requires IsNestedArrays(s)
    ensures PoolCountFrom(s, 27, 20, [Array, Array]) == 2
  {
    NestedArraysPoolFrom24(s);
    PoolSkip(s, 27, 20, [Array, Array]);
    PoolDigit(s, 27, 21, [Array, Array]);
    PoolCloseArray(s, 27, 22, [Array, Array]);
    assert [Array, Array][..1] == [Array];
    PoolSkip(s, 27, 23, [Array]);
  }

  /** The pool count of a text with those bytes from byte 24 on. */
  lemma NestedArraysPoolFrom24(s: seq<Byte>)
    requires IsNestedArrays(s)
    ensures PoolCountFrom(s, 27, 24, [Array]) == 1
  {
    assert PoolCountFrom(s, 27, 27, []) == 0;
    PoolSkip(s, 27, 24, [Array]);
    PoolDigit(s, 27, 25, [Array]);
    PoolCloseArray(s, 27, 26, [Array]);
    assert [Array][..0] == [];
  }

  // ---------------------------------------------------------------------------
  // Patterns

  /** strlen: the bytes of a C string before its first NUL. */
  function CLength(s: seq<Byte>): (n: nat)
    ensures n <= |s| && (n < |s| ==> s[n] == 0)
    ensures forall k :: 0 <= k < n ==> s[k] != 0
  {
    if |s| == 0 then 0
    else if s[0] == 0 then 0
    else 1 + CLength(s[1..])
  }

  /**
   * jsmn_parse_pattern: tokenizes a pattern string with a fresh parser into
   * pattTokens[..pattCount].
   */
  method ParsePattern(patt: seq<Byte>, pattTokens: array<Token>, pattCount: nat) returns (r: int)
    requires pattCount <= pattTokens.Length
    modifies pattTokens
    ensures r >= 0 || r == ERROR_NOMEM || r == ERROR_INVAL || r == ERROR_PART
    ensures r >= 0 ==> r == CountFrom(patt, CLength(patt), 0) && r <= pattCount
    ensures r != ERROR_NOMEM ==> r == PoolCountFrom(patt, CLength(patt), 0, [])
    ensures 0 <= PoolCountFrom(patt, CLength(patt), 0, []) <= pattCount ==> r != ERROR_NOMEM
    ensures r >= 0 ==> forall i :: 0 <= i < r ==> TokenSpan(patt, CLength(patt), pattTokens[i])
    ensures r >= 0 ==> forall i :: 0 <= i < r ==> pattTokens[i].end != -1
    ensures r >= 0 ==> forall i, j :: 0 <= i < j < r ==> pattTokens[i].start < pattTokens[j].start
    ensures forall i :: pattCount <= i < pattTokens.Length ==> pattTokens[i] == old(pattTokens[i])
  {
    var parser := new Parser();
    r := parser.Parse(patt, CLength(patt), pattTokens, pattCount);
  }

  /** strncmp(&a[i], &b[j], n) == 0: equal up to n bytes or up to a NUL both share. */
  predicate StrnEq(a: seq<Byte>, i: nat, b: seq<Byte>, j: nat, n: nat)
    requires i + n <= |a| && j + n <= |b|
    decreases n
  {
    n == 0 || (a[i] == b[j] && (a[i] == 0 || StrnEq(a, i + 1, b, j + 1, n - 1)))
  }

  /** Tokens whose string and primitive spans lie inside the text. */
  predicate Within(text: seq<Byte>, ts: seq<Token>, n: nat)
    requires n <= |ts|
  {
    forall i :: 0 <= i < n ==>
      (ts[i].kind == String || ts[i].kind == Primitive) ==> 0 <= ts[i].start <= ts[i].end <= |text|
  }

  /** A one-byte primitive '?' in a pattern matches any token. */
  predicate Wildcard(patt: seq<Byte>, p: Token)
  {
    p.kind == Primitive && p.end - p.start == 1 && 0 <= p.start < |patt| && patt[p.start] == '?' as int
  }

  /**
   * One token against one pattern token: wildcards and containers match
   * anything; strings and primitives must agree in type, length and bytes.
   */
  predicate TokenMatches(str: seq<Byte>, t: Token, patt: seq<Byte>, p: Token)
    requires (t.kind == String || t.kind == Primitive) ==> 0 <= t.start <= t.end <= |str|
    requires (p.kind == String || p.kind == Primitive) ==> 0 <= p.start <= p.end <= |patt|
  {
    if Wildcard(patt, p) then true
    else if p.kind == String || p.kind == Primitive then
      t.kind == p.kind && t.end - t.start == p.end - p.start &&
      StrnEq(str, t.start, patt, p.start, p.end - p.start)
    else true
  }

  /**
   * jsmn_pattern_matches, with the comparison loop bounded by the pattern's
   * token count: without extras the counts must be equal, with extras the
   * text may have more tokens, and each pattern token must match the text
   * token of the same index.
   */
  method PatternMatches(str: seq<Byte>, tokens: seq<Token>, count: nat,
                        patt: seq<Byte>, pattTokens: seq<Token>, pattCount: nat,
                        allowExtras: bool) returns (b: bool)
    requires count <= |tokens| && pattCount <= |pattTokens|
    requires Within(str, tokens, count) && Within(patt, pattTokens, pattCount)
    ensures b <==> (if allowExtras then pattCount <= count else pattCount == count) &&
                   forall i :: 0 <= i < pattCount ==> TokenMatches(str, tokens[i], patt, pattTokens[i])
  {
    if !allowExtras && count != pattCount {
      return false;
    } else if count < pattCount {
      return false;
    }
    var i: nat := 0;
    while i < pattCount
      invariant i <= pattCount
      invariant forall k :: 0 <= k < i ==> TokenMatches(str, tokens[k], patt, pattTokens[k])
    {
      var t := tokens[i];
      var p := pattTokens[i];
      if p.kind == Primitive && p.end - p.start == 1 && patt[p.start] == '?' as int {
      } else if p.kind == String || p.kind == Primitive {
        if t.kind != p.kind {
          return false;
        } else if t.end - t.start != p.end - p.start {
          return false;
        }
        var same := StrnEqAt(str, t.start, patt, p.start, p.end - p.start);
        if !same {
          return false;
        }
      }
      i := i + 1;
    }
    return true;
  }

  /** strncmp's loop: compares byte by byte, stopping at the first difference or a shared NUL. */
  method StrnEqAt(a: seq<Byte>, i: nat, b: seq<Byte>, j: nat, n: nat) returns (eq: bool)
    requires i + n <= |a| && j + n <= |b|
    ensures eq == StrnEq(a, i, b, j, n)
  {
    var k: nat := 0;
    while k < n
      invariant k <= n
      invariant StrnEq(a, i, b, j, n) == StrnEq(a, i + k, b, j + k, n - k)
    {
      if a[i + k] != b[j + k] {
        return false;
      }
      if a[i + k] == 0 {
        return true;
      }
      k := k + 1;
    }
    return true;
  }

  /**
   * jsmn_pattern_matches as written: the loop runs over all `count` text
   * tokens, so with extras allowed it reads pattern tokens past pattCount,
   * from whatever the pattern array holds there (`pattMem`).
   */
  predicate PatternMatchesAsWritten(str: seq<Byte>, tokens: seq<Token>, count: nat,
                                    patt: seq<Byte>, pattMem: seq<Token>, pattCount: nat,
                                    allowExtras: bool)
    requires count <= |tokens| && count <= |pattMem|
    requires Within(str, tokens, count) && Within(patt, pattMem, count)
  {
    (if allowExtras then pattCount <= count else pattCount == count) &&
    forall i :: 0 <= i < count ==> TokenMatches(str, tokens[i], patt, pattMem[i])
  }

  /** A text matches the pattern made of its own tokens, with or without extras. */
  lemma MatchesItself(str: seq<Byte>, tokens: seq<Token>, count: nat)
    requires count <= |tokens| && Within(str, tokens, count)
    ensures forall i :: 0 <= i < count ==> TokenMatches(str, tokens[i], str, tokens[i])
  {
    forall i | 0 <= i < count
      ensures TokenMatches(str, tokens[i], str, tokens[i])
    {
      var t := tokens[i];
      if (t.kind == String || t.kind == Primitive) && !Wildcard(str, t) {
        StrnEqRefl(str, t.start, t.end - t.start);
      }
    }
  }

  lemma {:induction false} StrnEqRefl(a: seq<Byte>, i: nat, n: nat)
    requires i + n <= |a|
    ensures StrnEq(a, i, a, i, n)
    decreases n
  {
    if n > 0 && a[i] != 0 {
      StrnEqRefl(a, i + 1, n - 1);
    }
  }

  /** Equal bytes up to n compare equal under strncmp. */
  lemma {:induction false} StrnEqOfEqual(a: seq<Byte>, i: nat, b: seq<Byte>, j: nat, n: nat)
    requires i + n <= |a| && j + n <= |b| && a[i..i + n] == b[j..j + n]
    ensures StrnEq(a, i, b, j, n)
    decreases n
  {
    if n > 0 {
      assert a[i] == a[i..i + n][0] == b[j..j + n][0] == b[j];
      if a[i] != 0 {
        assert a[i + 1..i + n] == a[i..i + n][1..];
        assert b[j + 1..j + n] == b[j..j + n][1..];
        StrnEqOfEqual(a, i + 1, b, j + 1, n - 1);
      }
    }
  }

  /**
   * With extras allowed, the corrected and as-written loops disagree: the
   * text "[1,2]" has tokens [Array, "1", "2"] and the pattern "[1]" has
   * [Array, "1"]; if the pattern array holds a stale string token in its
   * third slot, the as-written loop compares the text's "2" against it and
   * rejects a text the pattern accepts.
   */
  lemma PatternMatchesOverreads()
    ensures var str: seq<Byte> := ['[' as int, '1' as int, ',' as int, '2' as int, ']' as int];
            var patt: seq<Byte> := ['[' as int, '1' as int, ']' as int];
            var tokens := [Token(Array, 0, 5, 2), Token(Primitive, 1, 2, 0), Token(Primitive, 3, 4, 0)];
            var pattMem := [Token(Array, 0, 3, 1), Token(Primitive, 1, 2, 0), Token(String, 1, 2, 0)];
            Within(str, tokens, 3) && Within(patt, pattMem, 3) &&
            (forall i :: 0 <= i < 2 ==> TokenMatches(str, tokens[i], patt, pattMem[i])) &&
            !PatternMatchesAsWritten(str, tokens, 3, patt, pattMem, 2, true)
  {
    var str: seq<Byte> := ['[' as int, '1' as int, ',' as int, '2' as int, ']' as int];
    var patt: seq<Byte> := ['[' as int, '1' as int, ']' as int];
    var tokens := [Token(Array, 0, 5, 2), Token(Primitive, 1, 2, 0), Token(Primitive, 3, 4, 0)];
    var pattMem := [Token(Array, 0, 3, 1), Token(Primitive, 1, 2, 0), Token(String, 1, 2, 0)];
    assert !TokenMatches(str, tokens[2], patt, pattMem[2]);
  }
}
