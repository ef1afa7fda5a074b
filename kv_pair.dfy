/**
 * The `key=value` body-token parser of the httpie command-line client:
 * the `KvPair` record, `KvPair::from_str` and its wrapper `parse_kv_pair`.
 * A token is split on `=`; the first segment is the key and the second the
 * value. Anything from a second `=` on is dropped, and the only failure is a
 * token without any `=`.
 */
module KvParse {
  import opened Wrappers
  import opened StrSplit

  /** One parsed body argument: key `k` and value `v`, copied verbatim. */
  datatype KvPair = KvPair(k: string, v: string)

  /** The separator between key and value. */
  const Sep: char := '='

  /** The lazy iterator that `s.split("=")` returns: the segments not yet taken. */
  datatype SplitIter = SplitIter(remaining: seq<string>)

  /** `str::split(s, "=")` as an iterator positioned before its first segment. */
  function SplitEq(s: string): (it: SplitIter)
    ensures |it.remaining| >= 1
  {
    SplitIter(Split(s, Sep))
  }

  /** `Iterator::next`: the next segment, if any, and the advanced iterator. */
  function Next(it: SplitIter): (r: (Option<string>, SplitIter))
    ensures r.0.Some? <==> |it.remaining| > 0
    ensures r.0.Some? ==> [r.0.value] + r.1.remaining == it.remaining
    ensures r.0.None? ==> r.1 == it
  {
    if |it.remaining| == 0 then (None, it)
    else (Some(it.remaining[0]), SplitIter(it.remaining[1..]))
  }

  /** The message of the `err` closure: `Failed to parse ` followed by the token itself. */
  function ParseError(s: string): (m: string)
    ensures |m| == 16 + |s|
    ensures "Failed to parse " <= m
    ensures m[16..] == s
  {
    "Failed to parse " + s
  }

  /**
   * `KvPair::from_str`: take the first segment as the key and the second as
   * the value, each through `ok_or_else(err)?`, which returns the error at
   * once when the iterator is exhausted.
   */
  function FromStr(s: string): (r: Result<KvPair, string>)
    ensures r.Err? <==> Sep !in s
    ensures r.Err? ==> r.error == "Failed to parse " + s
    ensures r.Ok? ==> Sep !in r.value.k && Sep !in r.value.v
  {
    var split := SplitEq(s);
    var (key, split) := Next(split);
    if key.None? then Err(ParseError(s))
    else
      var (value, _) := Next(split);
      if value.None? then Err(ParseError(s))
      else Ok(KvPair(key.value, value.value))
  }

  /** `parse_kv_pair`: `Ok(s.parse()?)`, which hands back what `from_str` returns. */
  function ParseKvPair(s: string): (r: Result<KvPair, string>)
    ensures r == FromStr(s)
  {
    match FromStr(s)
    case Ok(p) => Ok(p)
    case Err(e) => Err(e)
  }

  /** The key step cannot fail: `split` always yields a first segment, which is the field before the first `=`. */
  lemma KeyStepSucceeds(s: string)
    ensures Next(SplitEq(s)).0 == Some(s[..Find(s, Sep)])
  {
    FirstSegment(s, Sep);
  }

  /**
   * On success the key is exactly the part of `s` before the first `=`, and
   * the value exactly the part between the first `=` and the next `=` or the
   * end of `s`.
   */
  lemma {:induction false} FromStrFields(s: string)
    requires Sep in s
    ensures var i := Find(s, Sep);
            var t := s[i + 1..];
            FromStr(s) == Ok(KvPair(s[..i], t[..Find(t, Sep)]))
  {
    var i := Find(s, Sep);
    var t := s[i + 1..];
    SplitAtFirst(s, Sep);
    FirstSegment(t, Sep);
  }

  /**
   * Characterisation of a successful parse without reference to the parser:
   * the key is the field of `s` and the value the field of what follows the
   * first `=`. Both directions: these conditions determine the pair.
   */
  lemma {:induction false} FromStrOkIff(s: string, p: KvPair)
    ensures FromStr(s) == Ok(p) <==>
            |p.k| < |s| && IsField(s, Sep, p.k) && IsField(s[|p.k| + 1..], Sep, p.v)
  {
    if Sep in s {
      FromStrFields(s);
      var i := Find(s, Sep);
      var t := s[i + 1..];
      FieldUnique(s, Sep, p.k);
      FieldUnique(t, Sep, p.v);
    } else {
      FieldUnique(s, Sep, p.k);
    }
  }

  /**
   * Round trip: a key and a value free of `=` joined by one `=` parse back to
   * exactly that pair, empty key (`"=x"`) and empty value (`"b="`) included;
   * and no other pair comes back from its own rendering.
   */
  lemma {:induction false} RoundTrip(k: string, v: string)
    ensures FromStr(k + [Sep] + v) == Ok(KvPair(k, v)) <==> Sep !in k && Sep !in v
  {
    if Sep !in k && Sep !in v {
      SplitCons(k, v, Sep);
      SplitNoSep(v, Sep);
    }
  }

  /** Only the value's first `=`-segment survives: `k + "=" + v + "=" + rest` parses to `(k, v)`. */
  lemma {:induction false} RestDropped(k: string, v: string, rest: string)
    requires Sep !in k && Sep !in v
    ensures FromStr(k + [Sep] + v + [Sep] + rest) == Ok(KvPair(k, v))
  {
    assert k + [Sep] + v + [Sep] + rest == k + [Sep] + (v + [Sep] + rest);
    SplitCons(k, v + [Sep] + rest, Sep);
    SplitCons(v, rest, Sep);
  }

  /**
   * On success `k + "=" + v` is a prefix of `s`, so every character of the
   * key and the value is the input's own, and it is all of `s` exactly when
   * `s` holds a single `=`.
   */
  lemma ReassemblePrefix(s: string, p: KvPair)
    requires FromStr(s) == Ok(p)
    ensures p.k + [Sep] + p.v <= s
    ensures p.k + [Sep] + p.v == s <==> multiset(s)[Sep] == 1
  {
    FromStrFields(s);
    ReassembleFields(s);
    CountAt(s, Sep, Find(s, Sep));
    CountIsMultiplicity(s, Sep);
  }

  /** The statement of `ReassemblePrefix` about the two fields themselves. */
  lemma ReassembleFields(s: string)
    requires Sep in s
    ensures var i := Find(s, Sep);
            var t := s[i + 1..];
            var w := s[..i] + [Sep] + t[..Find(t, Sep)];
            w <= s && (w == s <==> Sep !in t)
  {
  }

  /** Cutting `t` at `j` and putting `k + "="` in front gives a prefix of `k + "=" + t`, all of it when `j` is `|t|`. */
  lemma Reassemble(k: string, t: string, j: nat)
    requires j <= |t|
    ensures k + [Sep] + t[..j] <= k + [Sep] + t
    ensures k + [Sep] + t[..j] == k + [Sep] + t <==> j == |t|
  {
  }

  /** No trimming or unescaping: each character of the key and the value is the input's character at its place. */
  lemma Verbatim(s: string, p: KvPair)
    requires FromStr(s) == Ok(p)
    ensures |p.k| < |s|
    ensures forall n :: 0 <= n < |p.k| ==> p.k[n] == s[n]
    ensures s[|p.k|] == Sep
    ensures forall n :: 0 <= n < |p.v| ==> |p.k| + 1 + n < |s| && p.v[n] == s[|p.k| + 1 + n]
  {
    ReassemblePrefix(s, p);
    var w := p.k + [Sep] + p.v;
    assert forall n :: 0 <= n < |p.k| ==> w[n] == p.k[n];
    assert forall n :: 0 <= n < |p.v| ==> w[|p.k| + 1 + n] == p.v[n];
  }

  /** `"a=b=c"` keeps only `"b"` as its value. */
  lemma ExampleSecondEqDrops()
    ensures FromStr("a=b=c") == Ok(KvPair("a", "b"))
  {
    RestDropped("a", "b", "c");
    assert "a" + [Sep] + "b" + [Sep] + "c" == "a=b=c";
  }

  /** `"b="` has an empty value and `"=x"` an empty key. */
  lemma ExampleEmptyParts()
    ensures FromStr("b=") == Ok(KvPair("b", ""))
    ensures FromStr("=x") == Ok(KvPair("", "x"))
  {
    RoundTrip("b", "");
    assert "b" + [Sep] + "" == "b=";
    RoundTrip("", "x");
    assert "" + [Sep] + "x" == "=x";
  }

  /** Tokens without `=`, the empty one included, are refused. */
  lemma ExampleNoEq()
    ensures FromStr("") == Err("Failed to parse ")
    ensures FromStr("abc") == Err("Failed to parse abc")
  {
    assert "Failed to parse " + "" == "Failed to parse ";
    assert Sep !in "abc" by { assert "abc" == ['a', 'b', 'c']; }
    assert "Failed to parse " + "abc" == "Failed to parse abc";
  }
}
