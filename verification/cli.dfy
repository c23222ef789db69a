/** The override tokens of the `run` action (`-e KEY=VALUE`) and their
    partition into the three lists of `ExtraArgs`. */
module Cli {
  import opened Wrappers
  import opened Errors
  import opened Strings

  /** Which part of the request an override targets. */
  datatype KeyValType = Query | Header | Body

  datatype KeyVal = KeyVal(keyType: KeyValType, key: string, value: string)

  /** The overrides grouped by target, each list in command-line order. */
  datatype ExtraArgs = ExtraArgs(
    headers: seq<(string, string)>,
    query: seq<(string, string)>,
    body: seq<(string, string)>
  )

  /** The marker a key starts with on the command line. */
  function Sigil(t: KeyValType): string {
    match t
    case Header => "%"
    case Body => "@"
    case Query => ""
  }

  /** The overrides `ParseKeyVal` can produce: a key free of `=` that does not
      end in whitespace (a query key also starts with an ASCII letter) and a
      value with no surrounding whitespace. */
  predicate WellFormed(kv: KeyVal) {
    && '=' !in kv.key
    && (|kv.key| > 0 ==> !IsWhitespace(kv.key[|kv.key| - 1]))
    && (kv.keyType == Query ==> |kv.key| > 0 && IsAsciiAlphabetic(kv.key[0]))
    && IsTrimmed(kv.value)
  }

  /** The override written back as a token. */
  function Format(kv: KeyVal): string {
    Sigil(kv.keyType) + kv.key + "=" + kv.value
  }

  /** `parse_key_val`: split at the first `=`, trim both sides, and classify by
      the first character of the key. Every failure carries the whole token. */
  function ParseKeyVal(s: string): (r: Fallible<KeyVal>)
    ensures '=' !in s ==> r.Failure?
    ensures r.Failure? ==> r.error == InvalidKeyVal(s)
    ensures r.Success? ==> WellFormed(r.value)
  {
    match SplitOnce(s, '=')
    case None => Failure(InvalidKeyVal(s))
    case Some((rawKey, rawValue)) =>
      var key := Trim(rawKey);
      var value := Trim(rawValue);
      assert '=' !in key by {
        if '=' in key { TrimSubset(rawKey, '='); }
      }
      if |key| == 0 then Failure(InvalidKeyVal(s))
      else if key[0] == '%' then Success(KeyVal(Header, key[1..], value))
      else if key[0] == '@' then Success(KeyVal(Body, key[1..], value))
      else if IsAsciiAlphabetic(key[0]) then Success(KeyVal(Query, key, value))
      else Failure(InvalidKeyVal(s))
  }

  /** A token `a=b` whose `a` holds no `=`: the split is at that `=` (so `b`
      may hold more of them), both sides are trimmed, a leading `%` or `@`
      selects header or body and is removed, a leading ASCII letter selects
      query and stays, and anything else (an empty key included) is refused. */
  lemma ParseKeyValCases(a: string, b: string)
    requires '=' !in a
    ensures var s := a + "=" + b;
            var key := Trim(a);
            var value := Trim(b);
            && (|key| == 0 ==> ParseKeyVal(s) == Failure(InvalidKeyVal(s)))
            && (|key| > 0 && key[0] == '%' ==> ParseKeyVal(s) == Success(KeyVal(Header, key[1..], value)))
            && (|key| > 0 && key[0] == '@' ==> ParseKeyVal(s) == Success(KeyVal(Body, key[1..], value)))
            && (|key| > 0 && IsAsciiAlphabetic(key[0]) ==> ParseKeyVal(s) == Success(KeyVal(Query, key, value)))
            && (|key| > 0 && key[0] != '%' && key[0] != '@' && !IsAsciiAlphabetic(key[0])
                ==> ParseKeyVal(s) == Failure(InvalidKeyVal(s)))
  {
    SplitOnceAtFirst(a, '=', b);
  }

  /** Writing a well-formed override as a token and parsing it gives it back. */
  lemma ParseFormat(kv: KeyVal)
    requires WellFormed(kv)
    ensures ParseKeyVal(Format(kv)) == Success(kv)
  {
    var a := Sigil(kv.keyType) + kv.key;
    assert Format(kv) == a + "=" + kv.value;
    assert '=' !in a;
    assert IsTrimmed(a);
    TrimTrimmed(a);
    ParseKeyValCases(a, kv.value);
    TrimTrimmed(kv.value);
    if kv.keyType != Query {
      assert a[1..] == kv.key;
    }
  }

  /** Whatever `ParseKeyVal` accepts, it accepts again in canonical form. */
  lemma ParseCanonical(s: string)
    requires ParseKeyVal(s).Success?
    ensures ParseKeyVal(Format(ParseKeyVal(s).value)) == ParseKeyVal(s)
  {
    ParseFormat(ParseKeyVal(s).value);
  }

  /** The overrides of type `t`, as (key, value) pairs in input order: the
      list `From<Vec<KeyVal>> for ExtraArgs` builds for `t`. */
  function Select(args: seq<KeyVal>, t: KeyValType): seq<(string, string)> {
    if |args| == 0 then []
    else
      var last := args[|args| - 1];
      Select(args[..|args| - 1], t) + (if last.keyType == t then [(last.key, last.value)] else [])
  }

  /** How many overrides of type `t` precede position `i`. */
  function Rank(args: seq<KeyVal>, i: nat, t: KeyValType): nat
    requires i <= |args|
  {
    |Select(args[..i], t)|
  }

  /** `From<Vec<KeyVal>> for ExtraArgs`: one pass that pushes each override onto
      the list of its type. */
  method FromKeyVals(args: seq<KeyVal>) returns (r: ExtraArgs)
    ensures r.headers == Select(args, Header)
    ensures r.query == Select(args, Query)
    ensures r.body == Select(args, Body)
  {
    var headers, query, body := [], [], [];
    var i := 0;
    while i < |args|
      invariant 0 <= i <= |args|
      invariant headers == Select(args[..i], Header)
      invariant query == Select(args[..i], Query)
      invariant body == Select(args[..i], Body)
    {
      var arg := args[i];
      assert args[..i + 1][..i] == args[..i];
      match arg.keyType {
        case Body => body := body + [(arg.key, arg.value)];
        case Header => headers := headers + [(arg.key, arg.value)];
        case Query => query := query + [(arg.key, arg.value)];
      }
      i := i + 1;
    }
    assert args[..i] == args;
    r := ExtraArgs(headers, query, body);
  }

  /** No override is lost or duplicated: the three lists together are as long
      as the input. */
  lemma {:induction false} SelectLengths(args: seq<KeyVal>)
    ensures |Select(args, Header)| + |Select(args, Query)| + |Select(args, Body)| == |args|
  {
    if |args| > 0 {
      SelectLengths(args[..|args| - 1]);
    }
  }

  /** The override at position `i` lands in the list of its own type, at the
      position given by the number of same-type overrides before it. */
  lemma {:induction false} SelectPosition(args: seq<KeyVal>, i: nat)
    requires i < |args|
    ensures Rank(args, i, args[i].keyType) < |Select(args, args[i].keyType)|
    ensures Select(args, args[i].keyType)[Rank(args, i, args[i].keyType)] == (args[i].key, args[i].value)
    decreases |args|
  {
    var t := args[i].keyType;
    var n := |args|;
    if i == n - 1 {
      assert args[..i] == args[..n - 1];
    } else {
      assert args[..n - 1][..i] == args[..i];
      assert args[..n - 1][i] == args[i];
      SelectPosition(args[..n - 1], i);
    }
  }

  /** Ranks grow with position: two overrides of the same type keep their
      relative order in its list. */
  lemma {:induction false} RankMonotone(args: seq<KeyVal>, i: nat, j: nat)
    requires i < j <= |args|
    ensures Rank(args, i, args[i].keyType) < Rank(args, j, args[i].keyType)
    decreases j - i
  {
    var t := args[i].keyType;
    assert args[..j][..j - 1] == args[..j - 1];
    if j - 1 == i {
      assert args[..j][j - 1] == args[i];
    } else {
      RankMonotone(args, i, j - 1);
    }
  }

  /** Every pair in the list for `t` comes from an override of type `t`. */
  lemma {:induction false} SelectSound(args: seq<KeyVal>, t: KeyValType, p: (string, string))
    requires p in Select(args, t)
    ensures exists i :: 0 <= i < |args| && args[i].keyType == t && (args[i].key, args[i].value) == p
  {
    var n := |args|;
    var front := Select(args[..n - 1], t);
    if p in front {
      SelectSound(args[..n - 1], t, p);
      var i :| 0 <= i < n - 1 && args[..n - 1][i].keyType == t && (args[..n - 1][i].key, args[..n - 1][i].value) == p;
      assert args[i] == args[..n - 1][i];
    } else {
      assert args[n - 1].keyType == t && (args[n - 1].key, args[n - 1].value) == p;
    }
  }
}
