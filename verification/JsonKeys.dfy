/** Rejecting duplicate keys on a JSON token stream (internal/bundle/summary.go,
    consumeJSONValue and rejectDuplicateJSONKeys).

    The decoder is the sequence of tokens it will yield before it fails or ends. */
module JsonKeys {
  import opened Wrappers

  datatype Token = Delim(c: char) | Text(s: string) | Scalar(text: string)

  datatype JsonError = Ended | KeyNotString | Duplicate(key: string) | UnexpectedDelim(c: char) | Trailing

  // ---------- What the walk does to any stream, well formed or not ----------

  type Rest = Result<seq<Token>, JsonError>

  predicate More(ts: seq<Token>) {
    ts != [] && ts[0] != Delim(']') && ts[0] != Delim('}')
  }

  function AfterValue(ts: seq<Token>): (r: Rest)
    ensures r.Ok? ==> |r.value| < |ts|
    decreases |ts|, 0
  {
    if ts == [] then Err(Ended)
    else match ts[0]
      case Delim('{') => AfterMembers(ts[1..], {})
      case Delim('[') => AfterItems(ts[1..])
      case Delim(c) => Err(UnexpectedDelim(c))
      case _ => Ok(ts[1..])
  }

  function AfterMembers(ts: seq<Token>, seen: set<string>): (r: Rest)
    ensures r.Ok? ==> |r.value| < |ts|
    decreases |ts|, 1
  {
    if More(ts) then
      if !ts[0].Text? then Err(KeyNotString)
      else if ts[0].s in seen then Err(Duplicate(ts[0].s))
      else
        match AfterValue(ts[1..])
        case Err(e) => Err(e)
        case Ok(rest) => AfterMembers(rest, seen + {ts[0].s})
    else if ts == [] then Err(Ended)
    else Ok(ts[1..])
  }

  function AfterItems(ts: seq<Token>): (r: Rest)
    ensures r.Ok? ==> |r.value| < |ts|
    decreases |ts|, 1
  {
    if More(ts) then
      match AfterValue(ts)
      case Err(e) => Err(e)
      case Ok(rest) => AfterItems(rest)
    else if ts == [] then Err(Ended)
    else Ok(ts[1..])
  }

  class Decoder {
    var tokens: seq<Token>

    constructor (tokens: seq<Token>)
      ensures this.tokens == tokens
    {
      this.tokens := tokens;
    }

    method Next() returns (r: Result<Token, JsonError>)
      modifies this
      ensures old(tokens) == [] ==> r == Err(Ended) && tokens == []
      ensures old(tokens) != [] ==> r == Ok(old(tokens)[0]) && tokens == old(tokens)[1..]
    {
      if |tokens| == 0 {
        return Err(Ended);
      }
      r := Ok(tokens[0]);
      tokens := tokens[1..];
    }

    method ConsumeJSONValue() returns (r: Result<(), JsonError>)
      modifies this
      ensures match AfterValue(old(tokens))
        case Ok(rest) => r == Ok(()) && tokens == rest
        case Err(e) => r == Err(e)
      decreases |tokens|, 0
    {
      ghost var start := tokens;
      var token := Next();
      if token.Err? {
        return Err(token.error);
      }
      match token.value {
        case Delim('{') =>
          r := ConsumeMembers();
        case Delim('[') =>
          r := ConsumeItems();
        case Delim(c) =>
          return Err(UnexpectedDelim(c));
        case _ =>
          return Ok(());
      }
    }

    method ConsumeMembers() returns (r: Result<(), JsonError>)
      modifies this
      ensures match AfterMembers(old(tokens), {})
        case Ok(rest) => r == Ok(()) && tokens == rest
        case Err(e) => r == Err(e)
      decreases |tokens|, 1
    {
      var seen: set<string> := {};
      while More(tokens)
        invariant |tokens| <= |old(tokens)|
        invariant AfterMembers(tokens, seen) == AfterMembers(old(tokens), {})
        decreases |tokens|
      {
        var key := Next();
        assert key.Ok?;
        if !key.value.Text? {
          return Err(KeyNotString);
        }
        if key.value.s in seen {
          return Err(Duplicate(key.value.s));
        }
        seen := seen + {key.value.s};
        var inner := ConsumeJSONValue();
        if inner.Err? {
          return Err(inner.error);
        }
      }
      var close := Next();
      return if close.Err? then Err(close.error) else Ok(());
    }

    method ConsumeItems() returns (r: Result<(), JsonError>)
      modifies this
      ensures match AfterItems(old(tokens))
        case Ok(rest) => r == Ok(()) && tokens == rest
        case Err(e) => r == Err(e)
      decreases |tokens|, 1
    {
      while More(tokens)
        invariant |tokens| <= |old(tokens)|
        invariant AfterItems(tokens) == AfterItems(old(tokens))
        decreases |tokens|
      {
        var inner := ConsumeJSONValue();
        if inner.Err? {
          return Err(inner.error);
        }
      }
      var close := Next();
      return if close.Err? then Err(close.error) else Ok(());
    }
  }

  method RejectDuplicateJSONKeys(raw: seq<Token>) returns (r: Result<(), JsonError>)
    ensures r.Ok? <==> AfterValue(raw) == Ok([])
  {
    var decoder := new Decoder(raw);
    var consumed := decoder.ConsumeJSONValue();
    if consumed.Err? {
      return consumed;
    }
    var extra := decoder.Next();
    if extra.Ok? {
      return Err(Trailing);
    }
    return Ok(());
  }

  // ---------- JSON values and their tokens ----------

  datatype Value = Object(members: Members) | Array(items: Items) | Str(s: string) | Atom(text: string)
  datatype Members = NoMembers | Member(key: string, value: Value, more: Members)
  datatype Items = NoItems | Item(value: Value, more: Items)

  function Tokens(v: Value): seq<Token> {
    match v
    case Object(ms) => [Delim('{')] + MemberTokens(ms) + [Delim('}')]
    case Array(xs) => [Delim('[')] + ItemTokens(xs) + [Delim(']')]
    case Str(s) => [Text(s)]
    case Atom(t) => [Scalar(t)]
  }

  function MemberTokens(ms: Members): seq<Token> {
    match ms
    case NoMembers => []
    case Member(k, v, more) => [Text(k)] + Tokens(v) + MemberTokens(more)
  }

  function ItemTokens(xs: Items): seq<Token> {
    match xs
    case NoItems => []
    case Item(v, more) => Tokens(v) + ItemTokens(more)
  }

  function Keys(ms: Members): set<string> {
    match ms
    case NoMembers => {}
    case Member(k, _, more) => {k} + Keys(more)
  }

  // No object anywhere inside repeats a key.
  predicate KeysUnique(v: Value) {
    match v
    case Object(ms) => MembersUnique(ms)
    case Array(xs) => ItemsUnique(xs)
    case _ => true
  }

  predicate MembersUnique(ms: Members) {
    match ms
    case NoMembers => true
    case Member(k, v, more) => k !in Keys(more) && KeysUnique(v) && MembersUnique(more)
  }

  predicate ItemsUnique(xs: Items) {
    match xs
    case NoItems => true
    case Item(v, more) => KeysUnique(v) && ItemsUnique(more)
  }

  lemma TokensStart(v: Value, rest: seq<Token>)
    ensures Tokens(v) != [] && More(Tokens(v) + rest)
  {
    match v {
      case Object(ms) => assert Tokens(v)[0] == Delim('{');
      case Array(xs) => assert Tokens(v)[0] == Delim('[');
      case _ =>
    }
  }

  // ---------- Exactly the duplicate-free values pass ----------

  lemma {:induction false} ValueOutcome(v: Value, rest: seq<Token>)
    ensures KeysUnique(v) ==> AfterValue(Tokens(v) + rest) == Ok(rest)
    ensures !KeysUnique(v) ==> AfterValue(Tokens(v) + rest).Err? && AfterValue(Tokens(v) + rest).error.Duplicate?
    decreases v, 0
  {
    match v {
      case Object(ms) =>
        var tail := MemberTokens(ms) + ([Delim('}')] + rest);
        assert Tokens(v) + rest == [Delim('{')] + tail;
        MembersOutcome(ms, {}, rest);
      case Array(xs) =>
        var tail := ItemTokens(xs) + ([Delim(']')] + rest);
        assert Tokens(v) + rest == [Delim('[')] + tail;
        ItemsOutcome(xs, rest);
      case _ =>
        assert (Tokens(v) + rest)[1..] == rest;
    }
  }

  lemma {:induction false} MembersOutcome(ms: Members, seen: set<string>, rest: seq<Token>)
    ensures
      var r := AfterMembers(MemberTokens(ms) + ([Delim('}')] + rest), seen);
      if MembersUnique(ms) && Keys(ms) !! seen then r == Ok(rest) else r.Err? && r.error.Duplicate?
    decreases ms, 1
  {
    var close := [Delim('}')] + rest;
    match ms {
      case NoMembers =>
        assert MemberTokens(ms) + close == close && close[1..] == rest;
      case Member(k, v, more) =>
        var tail := MemberTokens(more) + close;
        var ts := MemberTokens(ms) + close;
        assert ts == [Text(k)] + (Tokens(v) + tail);
        assert ts[0] == Text(k) && ts[1..] == Tokens(v) + tail;
        ValueOutcome(v, tail);
        MembersOutcome(more, seen + {k}, rest);
        assert Keys(ms) !! seen && k !in Keys(more) <==> k !in seen && Keys(more) !! seen + {k};
    }
  }

  lemma {:induction false} ItemsOutcome(xs: Items, rest: seq<Token>)
    ensures
      var r := AfterItems(ItemTokens(xs) + ([Delim(']')] + rest));
      if ItemsUnique(xs) then r == Ok(rest) else r.Err? && r.error.Duplicate?
    decreases xs, 1
  {
    var close := [Delim(']')] + rest;
    match xs {
      case NoItems =>
        assert ItemTokens(xs) + close == close && close[1..] == rest;
      case Item(v, more) =>
        var tail := ItemTokens(more) + close;
        var ts := ItemTokens(xs) + close;
        assert ts == Tokens(v) + tail;
        TokensStart(v, tail);
        ValueOutcome(v, tail);
        ItemsOutcome(more, rest);
    }
  }

  // On the tokens of a value followed by anything, the walk succeeds and leaves exactly what
  // follows if and only if no object inside the value repeats a key.
  lemma ConsumesExactlyUniqueValues(v: Value, rest: seq<Token>)
    ensures AfterValue(Tokens(v) + rest).Ok? <==> KeysUnique(v)
    ensures AfterValue(Tokens(v) + rest).Ok? ==> AfterValue(Tokens(v) + rest).value == rest
  {
    ValueOutcome(v, rest);
  }

  // Of such streams, the whole check passes exactly one duplicate-free value with nothing after.
  lemma PassesExactlyOneUniqueValue(v: Value, rest: seq<Token>)
    ensures AfterValue(Tokens(v) + rest) == Ok([]) <==> KeysUnique(v) && rest == []
  {
    ValueOutcome(v, rest);
  }
}
