// The thermostat's state record (tstat_model_t) and its JSON loader.  The
// loader tokenizes a C string with jsmn into a pool of 13 tokens, checks
// that the result is one object of key/value pairs, and walks the pairs,
// writing each recognised field in place.  Key and value names are compared
// with strncmp bounded by the token's length, so a token matches every name
// it is a prefix of.

module TstatModel {
  import opened Common
  import opened Jsmn

  /** system_mode_t */
  const SYSTEM_MODE_OFF: I32 := 0
  const SYSTEM_MODE_COOL: I32 := 1
  const SYSTEM_MODE_HEAT: I32 := 2

  /** MAX_JSMN_TOKENS: one object token and six key/value pairs. */
  const MAX_JSMN_TOKENS: nat := 13

  /** The bytes of an ASCII literal. */
  function Ascii(s: string): seq<Byte>
    requires forall i :: 0 <= i < |s| ==> s[i] as int < 256
  {
    seq(|s|, i requires 0 <= i < |s| => s[i] as int)
  }

  const AMBIENT_KEY: seq<Byte> := Ascii("ambient")
  const COOL_SETPOINT_KEY: seq<Byte> := Ascii("cool_setpoint")
  const HEAT_SETPOINT_KEY: seq<Byte> := Ascii("heat_setpoint")
  const RELAY_Y_KEY: seq<Byte> := Ascii("relay_y")
  const RELAY_W_KEY: seq<Byte> := Ascii("relay_w")
  const SYSTEM_MODE_KEY: seq<Byte> := Ascii("system_mode")

  const TRUE_NAME: seq<Byte> := Ascii("true")
  const FALSE_NAME: seq<Byte> := Ascii("false")

  /** The names load_json accepts for system_mode, and their values. */
  const MODE_NAMES: seq<seq<Byte>> :=
    [Ascii("SYSTEM_MODE_OFF"), Ascii("SYSTEM_MODE_COOL"), Ascii("SYSTEM_MODE_HEAT")]
  const MODE_VALUES: seq<I32> := [SYSTEM_MODE_OFF, SYSTEM_MODE_COOL, SYSTEM_MODE_HEAT]

  const UNKNOWN_NAME: seq<Byte> := Ascii("UNKNOWN")

  /** The fields of tstat_model_t, as a value. */
  datatype Settings = Settings(ambient: I32, coolSetpoint: I32, heatSetpoint: I32,
                               relayY: bool, relayW: bool, systemMode: I32)

  /** The fields load_json knows by name, in the order it tests their names. */
  datatype Field = Ambient | CoolSetpoint | HeatSetpoint | RelayY | RelayW | SystemMode

  function KeyName(f: Field): seq<Byte>
  {
    match f
    case Ambient => AMBIENT_KEY
    case CoolSetpoint => COOL_SETPOINT_KEY
    case HeatSetpoint => HEAT_SETPOINT_KEY
    case RelayY => RELAY_Y_KEY
    case RelayW => RELAY_W_KEY
    case SystemMode => SYSTEM_MODE_KEY
  }

  /** Position of a field's name in load_json's chain of tests. */
  function Rank(f: Field): nat
  {
    match f
    case Ambient => 0
    case CoolSetpoint => 1
    case HeatSetpoint => 2
    case RelayY => 3
    case RelayW => 4
    case SystemMode => 5
  }

  /** s and s' hold the same value in field f. */
  predicate SameAt(s: Settings, s': Settings, f: Field)
  {
    match f
    case Ambient => s.ambient == s'.ambient
    case CoolSetpoint => s.coolSetpoint == s'.coolSetpoint
    case HeatSetpoint => s.heatSetpoint == s'.heatSetpoint
    case RelayY => s.relayY == s'.relayY
    case RelayW => s.relayW == s'.relayW
    case SystemMode => s.systemMode == s'.systemMode
  }

  // ---------------------------------------------------------------------------
  // Token text and strncmp

  /** A token whose span lies inside the C string json, before its NUL. */
  predicate InText(json: seq<Byte>, t: Token)
  {
    0 <= t.start <= t.end <= CLength(json)
  }

  predicate AllInText(json: seq<Byte>, ts: seq<Token>, n: nat)
    requires n <= |ts|
  {
    forall i :: 0 <= i < n ==> InText(json, ts[i])
  }

  /** The bytes a token spans. */
  function Text(json: seq<Byte>, t: Token): seq<Byte>
    requires InText(json, t)
  {
    json[t.start..t.end]
  }

  /**
   * strncmp(&a[i], lit, n) == 0 for a literal lit, read as a C string: the
   * bytes agree up to n of them, or up to a NUL both contain, where the
   * literal's terminating NUL follows its last byte.
   */
  predicate StrnEqLit(a: seq<Byte>, i: nat, lit: seq<Byte>, n: nat)
    requires i + n <= |a|
    decreases n
  {
    if n == 0 then true
    else if |lit| == 0 then a[i] == 0
    else a[i] == lit[0] && (a[i] == 0 || StrnEqLit(a, i + 1, lit[1..], n - 1))
  }

  /** On n bytes free of NULs, strncmp against a literal is "is a prefix of the literal". */
  lemma {:induction false} StrnEqLitPrefix(a: seq<Byte>, i: nat, lit: seq<Byte>, n: nat)
    requires i + n <= |a|
    requires forall k :: i <= k < i + n ==> a[k] != 0
    ensures StrnEqLit(a, i, lit, n) <==> a[i..i + n] <= lit
    decreases n
  {
    if n > 0 && |lit| > 0 {
      StrnEqLitPrefix(a, i + 1, lit[1..], n - 1);
      assert a[i..i + n] == [a[i]] + a[i + 1..i + n];
    }
  }

  /** strncmp(&json[t.start], lit, t.end - t.start) == 0 is "the token's text is a prefix of lit". */
  lemma TokenPrefix(json: seq<Byte>, t: Token, lit: seq<Byte>)
    requires InText(json, t)
    ensures StrnEqLit(json, t.start, lit, t.end - t.start) <==> Text(json, t) <= lit
  {
    StrnEqLitPrefix(json, t.start, lit, t.end - t.start);
  }

  /**
   * token_streq: the token is a string and strncmp over its length finds
   * it equal to name; that is, its text is a prefix of name.
   */
  function TokenStreq(json: seq<Byte>, t: Token, name: seq<Byte>): (eq: bool)
    requires t.kind == String ==> InText(json, t)
    ensures eq <==> t.kind == String && Text(json, t) <= name
  {
    if t.kind != String then false
    else
      TokenPrefix(json, t, name);
      StrnEqLit(json, t.start, name, t.end - t.start)
  }

  /** is_odd: (n & 1) == 1 on a two's complement int, which Euclidean % 2 gives for every sign. */
  predicate IsOdd(n: int)
  {
    n % 2 == 1
  }

  // ---------------------------------------------------------------------------
  // Reading values

  /** What update_int stores: atoi of the text from the token on, for a primitive only. */
  function IntValue(json: seq<Byte>, t: Token, atoi: seq<Byte> -> I32): Option<I32>
    requires t.kind == Primitive ==> InText(json, t)
  {
    if t.kind != Primitive then None else Some(atoi(json[t.start..]))
  }

  /**
   * What update_bool stores: true for a primitive whose text is a prefix of
   * "true", false for one that is a prefix of "false" only, and nothing for
   * any other token.
   */
  function BoolValue(json: seq<Byte>, t: Token): (r: Option<bool>)
    requires t.kind == Primitive ==> InText(json, t)
    ensures r == Some(true) <==> t.kind == Primitive && Text(json, t) <= TRUE_NAME
    ensures r == Some(false) <==>
              t.kind == Primitive && !(Text(json, t) <= TRUE_NAME) && Text(json, t) <= FALSE_NAME
  {
    if t.kind != Primitive then None
    else
      var len := t.end - t.start;
      TokenPrefix(json, t, TRUE_NAME);
      TokenPrefix(json, t, FALSE_NAME);
      if StrnEqLit(json, t.start, TRUE_NAME, len) then Some(true)
      else if StrnEqLit(json, t.start, FALSE_NAME, len) then Some(false)
      else None
  }

  /**
   * What update_enum stores, searching names[k..]: the value of the first
   * name the token's text is a prefix of, whatever the token's type.
   */
  function EnumValue(json: seq<Byte>, t: Token, names: seq<seq<Byte>>, values: seq<I32>, k: nat): (r: Option<I32>)
    requires InText(json, t) && |names| == |values| && k <= |names|
    ensures r.None? <==> forall j :: k <= j < |names| ==> !(Text(json, t) <= names[j])
    ensures r.Some? ==> exists j :: k <= j < |names| && Text(json, t) <= names[j] && r.value == values[j] &&
                                    forall i :: k <= i < j ==> !(Text(json, t) <= names[i])
    decreases |names| - k
  {
    if k == |names| then None
    else
      TokenPrefix(json, t, names[k]);
      if StrnEqLit(json, t.start, names[k], t.end - t.start) then Some(values[k])
      else EnumValue(json, t, names, values, k + 1)
  }

  /** update_int: writes atoi's reading into dst for a primitive token, and fails otherwise. */
  method UpdateInt(json: seq<Byte>, t: Token, dst: I32, atoi: seq<Byte> -> I32) returns (ok: bool, out: I32)
    requires t.kind == Primitive ==> InText(json, t)
    ensures ok <==> t.kind == Primitive
    ensures out == if ok then atoi(json[t.start..]) else dst
    ensures ok == IntValue(json, t, atoi).Some? && (ok ==> out == IntValue(json, t, atoi).value)
  {
    if t.kind != Primitive {
      return false, dst;
    }
    return true, atoi(json[t.start..]);
  }

  /** update_bool: tests "true" and then "false" with strncmp over the token's length. */
  method UpdateBool(json: seq<Byte>, t: Token, dst: bool) returns (ok: bool, out: bool)
    requires t.kind == Primitive ==> InText(json, t)
    ensures ok == BoolValue(json, t).Some?
    ensures out == if ok then BoolValue(json, t).value else dst
  {
    if t.kind != Primitive {
      return false, dst;
    }
    var len := t.end - t.start;
    if StrnEqLit(json, t.start, TRUE_NAME, len) {
      return true, true;
    } else if StrnEqLit(json, t.start, FALSE_NAME, len) {
      return true, false;
    }
    return false, dst;
  }

  /** update_enum: the loop over names, stopping at the first strncmp match. */
  method UpdateEnum(json: seq<Byte>, t: Token, names: seq<seq<Byte>>, values: seq<I32>, dst: I32)
    returns (ok: bool, out: I32)
    requires InText(json, t) && |names| == |values|
    ensures ok == EnumValue(json, t, names, values, 0).Some?
    ensures out == if ok then EnumValue(json, t, names, values, 0).value else dst
  {
    var len := t.end - t.start;
    var i := 0;
    while i < |names|
      invariant 0 <= i <= |names|
      invariant EnumValue(json, t, names, values, i) == EnumValue(json, t, names, values, 0)
    {
      if StrnEqLit(json, t.start, names[i], len) {
        return true, values[i];
      }
      i := i + 1;
    }
    return false, dst;
  }

  // ---------------------------------------------------------------------------
  // The loader, on values

  /** The field of the first name, in load_json's chain of token_streq tests, that the key matches. */
  function KeyField(json: seq<Byte>, key: Token): Option<Field>
    requires InText(json, key)
  {
    if TokenStreq(json, key, AMBIENT_KEY) then Some(Ambient)
    else if TokenStreq(json, key, COOL_SETPOINT_KEY) then Some(CoolSetpoint)
    else if TokenStreq(json, key, HEAT_SETPOINT_KEY) then Some(HeatSetpoint)
    else if TokenStreq(json, key, RELAY_Y_KEY) then Some(RelayY)
    else if TokenStreq(json, key, RELAY_W_KEY) then Some(RelayW)
    else if TokenStreq(json, key, SYSTEM_MODE_KEY) then Some(SystemMode)
    else None
  }

  /** x is a prefix of f's name and of no name tested before it. */
  predicate FirstMatch(x: seq<Byte>, f: Field)
  {
    x <= KeyName(f) && forall g :: Rank(g) < Rank(f) ==> !(x <= KeyName(g))
  }

  /** x is a prefix of no field's name. */
  predicate NoMatch(x: seq<Byte>)
  {
    forall g :: !(x <= KeyName(g))
  }

  /**
   * A key selects a field exactly when it is a string whose text is a prefix
   * of that field's name and of no name tested before it; it selects none
   * when it is not a string or is a prefix of no name.
   */
  lemma KeyFieldFirstMatch(json: seq<Byte>, key: Token)
    requires InText(json, key)
    ensures KeyField(json, key).Some? ==> key.kind == String && FirstMatch(Text(json, key), KeyField(json, key).value)
    ensures KeyField(json, key).None? ==> key.kind != String || NoMatch(Text(json, key))
  {
    var r := KeyField(json, key);
    var x := Text(json, key);
    if r.Some? {
      forall g | Rank(g) < Rank(r.value)
        ensures !(x <= KeyName(g))
      {
        match g
        case Ambient =>
        case CoolSetpoint =>
        case HeatSetpoint =>
        case RelayY =>
        case RelayW =>
        case SystemMode =>
      }
      match r.value
      case Ambient => assert TokenStreq(json, key, AMBIENT_KEY);
      case CoolSetpoint => assert TokenStreq(json, key, COOL_SETPOINT_KEY);
      case HeatSetpoint => assert TokenStreq(json, key, HEAT_SETPOINT_KEY);
      case RelayY => assert TokenStreq(json, key, RELAY_Y_KEY);
      case RelayW => assert TokenStreq(json, key, RELAY_W_KEY);
      case SystemMode => assert TokenStreq(json, key, SYSTEM_MODE_KEY);
    } else if key.kind == String {
      forall g
        ensures !(x <= KeyName(g))
      {
        match g
        case Ambient =>
        case CoolSetpoint =>
        case HeatSetpoint =>
        case RelayY =>
        case RelayW =>
        case SystemMode =>
      }
    }
  }

  /** Field f of s set from the value token as that field's update function reads it, or None where it fails. */
  function FieldUpdate(json: seq<Byte>, value: Token, f: Field, s: Settings, atoi: seq<Byte> -> I32): Option<Settings>
    requires InText(json, value)
  {
    match f
    case Ambient =>
      var v := IntValue(json, value, atoi); if v.Some? then Some(s.(ambient := v.value)) else None
    case CoolSetpoint =>
      var v := IntValue(json, value, atoi); if v.Some? then Some(s.(coolSetpoint := v.value)) else None
    case HeatSetpoint =>
      var v := IntValue(json, value, atoi); if v.Some? then Some(s.(heatSetpoint := v.value)) else None
    case RelayY =>
      var v := BoolValue(json, value); if v.Some? then Some(s.(relayY := v.value)) else None
    case RelayW =>
      var v := BoolValue(json, value); if v.Some? then Some(s.(relayW := v.value)) else None
    case SystemMode =>
      var v := EnumValue(json, value, MODE_NAMES, MODE_VALUES, 0);
      if v.Some? then Some(s.(systemMode := v.value)) else None
  }

  /**
   * One pass of load_json's loop: the settings after the pair, or None where
   * load_json returns NULL (a key that is not a string, or a value its
   * field's update rejects).  A key naming no field is skipped.
   */
  function ApplyPair(json: seq<Byte>, key: Token, value: Token, s: Settings, atoi: seq<Byte> -> I32): (r: Option<Settings>)
    requires InText(json, key) && InText(json, value)
    ensures r.Some? ==> key.kind == String
  {
    if key.kind != String then None
    else
      match KeyField(json, key)
      case None => Some(s)
      case Some(f) => FieldUpdate(json, value, f, s, atoi)
  }

  /**
   * The pairs ts[i], ts[i+1], ts[i+2], ... below n applied in order: the
   * settings reached and whether every pair applied.  A failing pair stops
   * the walk and keeps what the pairs before it wrote.
   */
  function LoadPairs(json: seq<Byte>, ts: seq<Token>, n: nat, i: nat, s: Settings, atoi: seq<Byte> -> I32): (Settings, bool)
    requires n <= |ts| && AllInText(json, ts, n) && IsOdd(n) && IsOdd(i)
    decreases n - i
  {
    if i >= n then (s, true)
    else
      match ApplyPair(json, ts[i], ts[i + 1], s, atoi)
      case None => (s, false)
      case Some(s') => LoadPairs(json, ts, n, i + 2, s', atoi)
  }

  /**
   * tstat_model_load_json on the `count` tokens jsmn produced (or its error
   * code): the settings afterwards and whether the model (rather than NULL)
   * is returned.
   */
  function Load(json: seq<Byte>, ts: seq<Token>, count: int, s: Settings, atoi: seq<Byte> -> I32): (Settings, bool)
    requires count <= |ts| && (count >= 0 ==> AllInText(json, ts, count))
  {
    if count < 1 then (s, false)
    else if ts[0].kind != Object then (s, false)
    else if !IsOdd(count) then (s, false)
    else LoadPairs(json, ts, count, 1, s, atoi)
  }

  /** Tokens jsmn has finished allocating lie inside the text it scanned. */
  lemma ParsedInText(json: seq<Byte>, ts: seq<Token>, n: nat, sup: int, bound: int)
    requires PoolOk(ts, n, sup, n, bound)
    requires Spans(json, CLength(json), ts, n)
    requires forall i :: 0 <= i < n ==> ts[i].end != -1
    ensures AllInText(json, ts, n)
  {
    forall i | 0 <= i < n
      ensures InText(json, ts[i])
    {
      assert TokenSpan(json, CLength(json), ts[i]);
    }
  }

  // ---------------------------------------------------------------------------
  // The record

  /** tstat_model_t, updated in place by the loader and the setters. */
  class Model {
    var ambient: I32
    var coolSetpoint: I32
    var heatSetpoint: I32
    var relayY: bool
    var relayW: bool
    var systemMode: I32

    /** The fields as a value. */
    function Snapshot(): Settings
      reads this
    {
      Settings(ambient, coolSetpoint, heatSetpoint, relayY, relayW, systemMode)
    }

    constructor (s: Settings)
      ensures Snapshot() == s
    {
      ambient, coolSetpoint, heatSetpoint := s.ambient, s.coolSetpoint, s.heatSetpoint;
      relayY, relayW, systemMode := s.relayY, s.relayW, s.systemMode;
    }

    function GetAmbient(): I32
      reads this
    {
      ambient
    }

    function GetCoolSetpoint(): I32
      reads this
    {
      coolSetpoint
    }

    method SetCoolSetpoint(v: I32)
      modifies this
      ensures GetCoolSetpoint() == v
      ensures Snapshot() == old(Snapshot()).(coolSetpoint := v)
    {
      coolSetpoint := v;
    }

    function GetHeatSetpoint(): I32
      reads this
    {
      heatSetpoint
    }

    method SetHeatSetpoint(v: I32)
      modifies this
      ensures GetHeatSetpoint() == v
      ensures Snapshot() == old(Snapshot()).(heatSetpoint := v)
    {
      heatSetpoint := v;
    }

    function GetRelayY(): bool
      reads this
    {
      relayY
    }

    method SetRelayY(energized: bool)
      modifies this
      ensures GetRelayY() == energized
      ensures Snapshot() == old(Snapshot()).(relayY := energized)
    {
      relayY := energized;
    }

    function GetRelayW(): bool
      reads this
    {
      relayW
    }

    method SetRelayW(energized: bool)
      modifies this
      ensures GetRelayW() == energized
      ensures Snapshot() == old(Snapshot()).(relayW := energized)
    {
      relayW := energized;
    }

    function GetSystemMode(): I32
      reads this
    {
      systemMode
    }

    method SetSystemMode(m: I32)
      modifies this
      ensures GetSystemMode() == m
      ensures Snapshot() == old(Snapshot()).(systemMode := m)
    {
      systemMode := m;
    }

    /**
     * The body of load_json's loop for a string key: the first field whose
     * name the key matches is updated from the value, and `done` is false
     * where the update fails (the field then keeps its value).
     */
    method StorePair(json: seq<Byte>, key: Token, value: Token, atoi: seq<Byte> -> I32) returns (done: bool)
      requires InText(json, key) && InText(json, value) && key.kind == String
      modifies this
      ensures done == ApplyPair(json, key, value, old(Snapshot()), atoi).Some?
      ensures done ==> Snapshot() == ApplyPair(json, key, value, old(Snapshot()), atoi).value
      ensures !done ==> Snapshot() == old(Snapshot())
    {
      done := true;
      if TokenStreq(json, key, AMBIENT_KEY) {
        done, ambient := UpdateInt(json, value, ambient, atoi);
      } else if TokenStreq(json, key, COOL_SETPOINT_KEY) {
        done, coolSetpoint := UpdateInt(json, value, coolSetpoint, atoi);
      } else if TokenStreq(json, key, HEAT_SETPOINT_KEY) {
        done, heatSetpoint := UpdateInt(json, value, heatSetpoint, atoi);
      } else if TokenStreq(json, key, RELAY_Y_KEY) {
        done, relayY := UpdateBool(json, value, relayY);
      } else if TokenStreq(json, key, RELAY_W_KEY) {
        done, relayW := UpdateBool(json, value, relayW);
      } else if TokenStreq(json, key, SYSTEM_MODE_KEY) {
        done, systemMode := UpdateEnum(json, value, MODE_NAMES, MODE_VALUES, systemMode);
      }
    }

    /**
     * load_json's loop over the key/value pairs ts[1..n): stops with false at
     * a key that is not a string or at a failing update.
     */
    method StorePairs(json: seq<Byte>, ts: seq<Token>, n: nat, atoi: seq<Byte> -> I32) returns (ok: bool)
      requires n <= |ts| && AllInText(json, ts, n) && IsOdd(n)
      modifies this
      ensures (Snapshot(), ok) == LoadPairs(json, ts, n, 1, old(Snapshot()), atoi)
    {
      var i := 1;
      while i < n
        invariant 1 <= i <= n + 1 && IsOdd(i)
        invariant LoadPairs(json, ts, n, i, Snapshot(), atoi) == LoadPairs(json, ts, n, 1, old(Snapshot()), atoi)
        decreases n - i
      {
        var key := ts[i];
        var value := ts[i + 1];
        if key.kind != String {
          return false;
        }
        var done := StorePair(json, key, value, atoi);
        if !done {
          return false;
        }
        i := i + 2;
      }
      return true;
    }

    /**
     * tstat_model_load_json: tokenizes json (up to its NUL) into 13 tokens,
     * rejects anything but an object with an odd token count, then applies
     * the key/value pairs in order.  `ok` is false where the C returns NULL;
     * `ts` and `count` are the token pool and jsmn's result.  atoi is libc's
     * and is a parameter.
     */
    method LoadJson(json: seq<Byte>, atoi: seq<Byte> -> I32) returns (ok: bool, ghost ts: seq<Token>, ghost count: int)
      modifies this
      ensures count == ERROR_NOMEM || count == ERROR_INVAL || count == ERROR_PART || 0 <= count <= MAX_JSMN_TOKENS
      ensures count >= 0 ==> count == CountFrom(json, CLength(json), 0)
      ensures CountFrom(json, CLength(json), 0) < 0 ==> count < 0
      ensures count != ERROR_NOMEM ==> count == PoolCountFrom(json, CLength(json), 0, [])
      ensures 0 <= PoolCountFrom(json, CLength(json), 0, []) <= MAX_JSMN_TOKENS ==> count != ERROR_NOMEM
      ensures |ts| == MAX_JSMN_TOKENS && (count >= 0 ==> AllInText(json, ts, count))
      ensures (Snapshot(), ok) == Load(json, ts, count, old(Snapshot()), atoi)
    {
      var tokens := new Token[MAX_JSMN_TOKENS](_ => Token(Undefined, 0, 0, 0));
      var parser := new Parser();
      assert parser.Valid(tokens, MAX_JSMN_TOKENS);
      var result := parser.Parse(json, CLength(json), tokens, MAX_JSMN_TOKENS);
      ts, count := tokens[..], result;
      if result < 1 {
        return false, ts, count;
      }
      ParsedInText(json, ts, result, parser.toksuper, parser.pos);
      if tokens[0].kind != Object {
        return false, ts, count;
      } else if !IsOdd(result) {
        return false, ts, count;
      }
      ok := StorePairs(json, tokens[..], result, atoi);
    }
  }

  // ---------------------------------------------------------------------------
  // Properties of the loader

  /** NULL without touching the record unless jsmn found tokens, the first is an object and the count is odd. */
  lemma LoadRejectsShape(json: seq<Byte>, ts: seq<Token>, count: int, s: Settings, atoi: seq<Byte> -> I32)
    requires count <= |ts| && (count >= 0 ==> AllInText(json, ts, count))
    requires count < 1 || ts[0].kind != Object || !IsOdd(count)
    ensures Load(json, ts, count, s, atoi) == (s, false)
  {
  }

  /** Every key slot of a document that loads is a string token. */
  lemma {:induction false} LoadPairsOkKeys(json: seq<Byte>, ts: seq<Token>, n: nat, i: nat, s: Settings, atoi: seq<Byte> -> I32)
    requires n <= |ts| && AllInText(json, ts, n) && IsOdd(n) && IsOdd(i)
    requires LoadPairs(json, ts, n, i, s, atoi).1
    ensures forall j :: i <= j < n && IsOdd(j) ==> ts[j].kind == String
    decreases n - i
  {
    if i < n {
      var s' := ApplyPair(json, ts[i], ts[i + 1], s, atoi);
      LoadPairsOkKeys(json, ts, n, i + 2, s'.value, atoi);
      forall j | i <= j < n && IsOdd(j)
        ensures ts[j].kind == String
      {
        if j != i {
          assert i + 2 <= j;
        }
      }
    }
  }

  /** A document that loads is an object of an odd number of tokens whose keys are all strings. */
  lemma LoadOkShape(json: seq<Byte>, ts: seq<Token>, count: int, s: Settings, atoi: seq<Byte> -> I32)
    requires count <= |ts| && (count >= 0 ==> AllInText(json, ts, count))
    requires Load(json, ts, count, s, atoi).1
    ensures count >= 1 && ts[0].kind == Object && IsOdd(count)
    ensures forall j :: 1 <= j < count && IsOdd(j) ==> ts[j].kind == String
  {
    LoadPairsOkKeys(json, ts, count, 1, s, atoi);
  }

  /** Pairs whose keys are strings naming no field leave the record as it was and succeed. */
  lemma {:induction false} UnknownKeysIgnored(json: seq<Byte>, ts: seq<Token>, n: nat, i: nat, s: Settings, atoi: seq<Byte> -> I32)
    requires n <= |ts| && AllInText(json, ts, n) && IsOdd(n) && IsOdd(i)
    requires forall j :: i <= j < n && IsOdd(j) ==> ts[j].kind == String && KeyField(json, ts[j]).None?
    ensures LoadPairs(json, ts, n, i, s, atoi) == (s, true)
    decreases n - i
  {
    if i < n {
      UnknownKeysIgnored(json, ts, n, i + 2, s, atoi);
    }
  }

  /** A pair touches no field but the one its key selects. */
  lemma ApplyPairFrame(json: seq<Byte>, key: Token, value: Token, s: Settings, atoi: seq<Byte> -> I32, f: Field)
    requires InText(json, key) && InText(json, value)
    requires KeyField(json, key) != Some(f)
    ensures ApplyPair(json, key, value, s, atoi).Some? ==> SameAt(s, ApplyPair(json, key, value, s, atoi).value, f)
  {
  }

  /** A field no key of the document selects keeps its value, whether the load succeeds or not. */
  lemma {:induction false} UnnamedFieldKept(json: seq<Byte>, ts: seq<Token>, n: nat, i: nat, s: Settings,
                                            atoi: seq<Byte> -> I32, f: Field)
    requires n <= |ts| && AllInText(json, ts, n) && IsOdd(n) && IsOdd(i)
    requires forall j :: i <= j < n && IsOdd(j) ==> KeyField(json, ts[j]) != Some(f)
    ensures SameAt(s, LoadPairs(json, ts, n, i, s, atoi).0, f)
    decreases n - i
  {
    if i < n {
      var r := ApplyPair(json, ts[i], ts[i + 1], s, atoi);
      ApplyPairFrame(json, ts[i], ts[i + 1], s, atoi, f);
      if r.Some? {
        var rest := LoadPairs(json, ts, n, i + 2, r.value, atoi);
        assert LoadPairs(json, ts, n, i, s, atoi) == rest;
        UnnamedFieldKept(json, ts, n, i + 2, r.value, atoi, f);
        SameAtTrans(s, r.value, rest.0, f);
      } else {
        assert LoadPairs(json, ts, n, i, s, atoi) == (s, false);
      }
    }
  }

  lemma SameAtTrans(a: Settings, b: Settings, c: Settings, f: Field)
    requires SameAt(a, b, f) && SameAt(b, c, f)
    ensures SameAt(a, c, f)
  {
  }

  /**
   * Writes are not rolled back: with "ambient" applied from the first pair,
   * a second key that is not a string makes the load fail with ambient
   * already written.
   */
  lemma EarlierWritesSurviveFailure(json: seq<Byte>, ts: seq<Token>, s: Settings, atoi: seq<Byte> -> I32)
    requires 5 <= |ts| && AllInText(json, ts, 5) && ts[0].kind == Object
    requires ts[1].kind == String && Text(json, ts[1]) == AMBIENT_KEY && ts[2].kind == Primitive
    requires ts[3].kind != String
    ensures Load(json, ts, 5, s, atoi) == (s.(ambient := atoi(json[ts[2].start..])), false)
  {
    assert KeyField(json, ts[1]) == Some(Ambient);
    var s' := s.(ambient := atoi(json[ts[2].start..]));
    assert ApplyPair(json, ts[1], ts[2], s, atoi) == Some(s');
    assert LoadPairs(json, ts, 5, 3, s', atoi) == (s', false);
  }

  /** Every prefix of "ambient", the empty key included, selects ambient. */
  lemma AbbreviatedKeySelectsAmbient(json: seq<Byte>, key: Token)
    requires InText(json, key) && key.kind == String && Text(json, key) <= AMBIENT_KEY
    ensures KeyField(json, key) == Some(Ambient)
  {
  }

  /**
   * relay_w is reachable only by its full name: every shorter prefix of
   * "relay_w" is also a prefix of "relay_y", which is tested first.
   */
  lemma {:induction false} RelayWNeedsFullName(json: seq<Byte>, key: Token)
    requires InText(json, key)
    ensures KeyField(json, key) == Some(RelayW) <==> key.kind == String && Text(json, key) == RELAY_W_KEY
  {
    var t := Text(json, key);
    if KeyField(json, key) == Some(RelayW) {
      assert Rank(RelayY) < Rank(RelayW);
      assert t <= RELAY_W_KEY && !(t <= RELAY_Y_KEY);
    }
    if key.kind == String && t == RELAY_W_KEY {
      assert t[0] != AMBIENT_KEY[0] && t[0] != COOL_SETPOINT_KEY[0] && t[0] != HEAT_SETPOINT_KEY[0];
      assert t[6] != RELAY_Y_KEY[6];
    }
  }

  /** A literal true or false, or any prefix of one, is read as that boolean. */
  lemma BoolSpellings(json: seq<Byte>, t: Token)
    requires InText(json, t) && t.kind == Primitive
    ensures Text(json, t) == TRUE_NAME || Text(json, t) == Ascii("t") ==> BoolValue(json, t) == Some(true)
    ensures Text(json, t) == FALSE_NAME || Text(json, t) == Ascii("f") ==> BoolValue(json, t) == Some(false)
  {
    var x := Text(json, t);
    if x == FALSE_NAME || x == Ascii("f") {
      assert x[0] != TRUE_NAME[0];
    }
  }

  // ---------------------------------------------------------------------------
  // Mode names

  /**
   * system_mode_to_string as written: the HEAT name is spelled
   * "SYSTEM_MDOE_HEAT".
   */
  function SystemModeToStringAsWritten(m: I32): (s: seq<Byte>)
    ensures m != SYSTEM_MODE_HEAT ==> s == SystemModeToString(m)
    ensures m == SYSTEM_MODE_HEAT ==> s != SystemModeToString(m) && |s| == |SystemModeToString(m)|
  {
    if m == SYSTEM_MODE_OFF then Ascii("SYSTEM_MODE_OFF")
    else if m == SYSTEM_MODE_COOL then Ascii("SYSTEM_MODE_COOL")
    else if m == SYSTEM_MODE_HEAT then
      var s := Ascii("SYSTEM_MDOE_HEAT");
      assert s[8] != SystemModeToString(m)[8];
      s
    else UNKNOWN_NAME
  }

  /** system_mode_to_string with the HEAT name spelled as load_json's table spells it. */
  function SystemModeToString(m: I32): (s: seq<Byte>)
    ensures 0 <= m < 3 ==> s == MODE_NAMES[m]
    ensures !(0 <= m < 3) ==> s == UNKNOWN_NAME
  {
    if m == SYSTEM_MODE_OFF then Ascii("SYSTEM_MODE_OFF")
    else if m == SYSTEM_MODE_COOL then Ascii("SYSTEM_MODE_COOL")
    else if m == SYSTEM_MODE_HEAT then Ascii("SYSTEM_MODE_HEAT")
    else UNKNOWN_NAME
  }

  /** update_enum reads each mode's name back as that mode, and "UNKNOWN" as nothing. */
  lemma {:induction false} ModeNameRoundTrip(json: seq<Byte>, t: Token, m: I32)
    requires InText(json, t) && Text(json, t) == SystemModeToString(m)
    ensures 0 <= m < 3 ==> EnumValue(json, t, MODE_NAMES, MODE_VALUES, 0) == Some(m)
    ensures !(0 <= m < 3) ==> EnumValue(json, t, MODE_NAMES, MODE_VALUES, 0).None?
  {
    var x := Text(json, t);
    TokenPrefix(json, t, MODE_NAMES[0]);
    TokenPrefix(json, t, MODE_NAMES[1]);
    TokenPrefix(json, t, MODE_NAMES[2]);
    if m == SYSTEM_MODE_COOL {
      assert |x| > |MODE_NAMES[0]|;
    } else if m == SYSTEM_MODE_HEAT {
      assert |x| > |MODE_NAMES[0]|;
      assert x[12] != MODE_NAMES[1][12];
    } else if !(0 <= m < 3) {
      assert forall j :: 0 <= j < 3 ==> x[0] != MODE_NAMES[j][0];
    }
  }

  /** The name system_mode_to_string gives HEAT as written is one update_enum rejects. */
  lemma {:induction false} HeatNameDoesNotRoundTrip(json: seq<Byte>, t: Token)
    requires InText(json, t) && Text(json, t) == SystemModeToStringAsWritten(SYSTEM_MODE_HEAT)
    ensures EnumValue(json, t, MODE_NAMES, MODE_VALUES, 0).None?
  {
    var x := Text(json, t);
    assert |x| > |MODE_NAMES[0]|;
    assert x[8] != MODE_NAMES[1][8] && x[8] != MODE_NAMES[2][8];
  }
}
