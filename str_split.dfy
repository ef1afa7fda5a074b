/**
 * Rust's `str::split` on a one-character pattern, as a sequence of segments.
 * `"".split("=")` yields one empty segment, `"=".split("=")` two empty ones,
 * and in general the segments joined back with the separator give the input.
 */
module StrSplit {

  /** Number of occurrences of `c` in `s`. */
  function Count(s: string, c: char): (n: nat)
    ensures n == 0 <==> c !in s
    ensures n <= |s|
  {
    if |s| == 0 then 0
    else (if s[0] == c then 1 else 0) + Count(s[1..], c)
  }

  /** Index of the first `c` in `s`, or `|s|` when there is none. */
  function Find(s: string, c: char): (i: nat)
    ensures i <= |s|
    ensures c !in s[..i]
    ensures i < |s| <==> c in s
    ensures i < |s| ==> s[i] == c
  {
    if |s| == 0 then 0
    else if s[0] == c then 0
    else 1 + Find(s[1..], c)
  }

  /**
   * `w` is a field of `s`: a prefix of `s` free of `c` that runs up to the
   * first `c` or to the end of `s`.
   */
  predicate IsField(s: string, c: char, w: string)
  {
    w <= s && c !in w && (|w| == |s| || s[|w|] == c)
  }

  /** Segments joined with the separator; the inverse of `Split`. */
  function Join(segs: seq<string>, sep: char): string
  {
    if |segs| == 0 then ""
    else if |segs| == 1 then segs[0]
    else segs[0] + [sep] + Join(segs[1..], sep)
  }

  /** The segments of `s` between occurrences of `sep`, as `str::split` yields them. */
  function Split(s: string, sep: char): (r: seq<string>)
    ensures |r| == Count(s, sep) + 1
    ensures forall i :: 0 <= i < |r| ==> sep !in r[i]
  {
    if |s| == 0 then [""]
    else
      var rest := Split(s[1..], sep);
      if s[0] == sep then [""] + rest
      else [[s[0]] + rest[0]] + rest[1..]
  }

  /** Occurrences around position `i`: those before it, the one at it, those after it. */
  lemma {:induction false} CountAt(s: string, c: char, i: nat)
    requires i < |s|
    ensures Count(s, c) == Count(s[..i], c) + (if s[i] == c then 1 else 0) + Count(s[i + 1..], c)
  {
    if i > 0 {
      CountAt(s[1..], c, i - 1);
      assert s[1..][..i - 1] == s[..i][1..];
      assert s[1..][i..] == s[i + 1..];
    }
  }

  /** `Count` is the multiplicity of `c` in the multiset of characters of `s`. */
  lemma {:induction false} CountIsMultiplicity(s: string, c: char)
    ensures Count(s, c) == multiset(s)[c]
  {
    if |s| > 0 {
      CountIsMultiplicity(s[1..], c);
      assert s == [s[0]] + s[1..];
      assert multiset(s) == multiset([s[0]]) + multiset(s[1..]);
    }
  }

  /** Joining the segments gives the string back. */
  lemma {:induction false} JoinSplit(s: string, sep: char)
    ensures Join(Split(s, sep), sep) == s
    decreases |s|
  {
    if |s| > 0 {
      var r, rest := Split(s, sep), Split(s[1..], sep);
      JoinSplit(s[1..], sep);
      assert s == [s[0]] + s[1..];
      if s[0] == sep {
        assert r[0] == "" && r[1..] == rest;
      } else {
        assert r[0] == [s[0]] + rest[0] && r[1..] == rest[1..];
        if |rest| == 1 {
          assert Join(r, sep) == [s[0]] + rest[0];
        } else {
          assert Join(r, sep) == [s[0]] + (rest[0] + [sep] + Join(rest[1..], sep));
        }
      }
    }
  }

  /** `s` cut around position `i`. */
  lemma CutAt(s: string, i: nat)
    requires i < |s|
    ensures s == s[..i] + [s[i]] + s[i + 1..]
  {
  }

  /** The field of `s` is unique: it is the prefix before the first separator. */
  lemma FieldUnique(s: string, c: char, w: string)
    ensures IsField(s, c, w) <==> w == s[..Find(s, c)]
  {
    var i := Find(s, c);
    if IsField(s, c, w) {
      assert forall j :: 0 <= j < i ==> s[j] != c by {
        forall j | 0 <= j < i ensures s[j] != c { assert s[..i][j] == s[j]; }
      }
      assert forall j :: 0 <= j < |w| ==> s[j] != c by {
        forall j | 0 <= j < |w| ensures s[j] != c { assert w[j] == s[j]; }
      }
    }
  }

  /** Splitting undoes joining, for segments free of the separator. */
  lemma {:induction false} SplitJoin(segs: seq<string>, sep: char)
    requires |segs| >= 1
    requires forall i :: 0 <= i < |segs| ==> sep !in segs[i]
    ensures Split(Join(segs, sep), sep) == segs
  {
    if |segs| == 1 {
      SplitNoSep(segs[0], sep);
    } else {
      SplitJoin(segs[1..], sep);
      SplitCons(segs[0], Join(segs[1..], sep), sep);
    }
  }

  /** A string with no separator is a single segment. */
  lemma {:induction false} SplitNoSep(s: string, sep: char)
    requires sep !in s
    ensures Split(s, sep) == [s]
  {
    JoinSplit(s, sep);
  }

  /** Prefixing a separator-free word and a separator adds one segment in front. */
  lemma {:induction false} SplitCons(w: string, t: string, sep: char)
    requires sep !in w
    ensures Split(w + [sep] + t, sep) == [w] + Split(t, sep)
    decreases |w|
  {
    var s := w + [sep] + t;
    if |w| == 0 {
      assert s == [sep] + t;
      assert s[1..] == t;
    } else {
      assert s[1..] == w[1..] + [sep] + t;
      assert w[0] in w;
      SplitCons(w[1..], t, sep);
      var rest := Split(s[1..], sep);
      assert rest[0] == w[1..] && rest[1..] == Split(t, sep);
      assert [s[0]] + rest[0] == w;
    }
  }

  /** The first segment of `s` is its field: everything before the first separator. */
  lemma FirstSegment(s: string, sep: char)
    ensures Split(s, sep)[0] == s[..Find(s, sep)]
    ensures IsField(s, sep, Split(s, sep)[0])
  {
    var i := Find(s, sep);
    FieldUnique(s, sep, s[..i]);
    if i == |s| {
      assert s[..i] == s;
      SplitNoSep(s, sep);
    } else {
      CutAt(s, i);
      SplitCons(s[..i], s[i + 1..], sep);
    }
  }

  /** When `s` has a separator, its segments are the field before it and the segments after it. */
  lemma SplitAtFirst(s: string, sep: char)
    requires sep in s
    ensures Split(s, sep) == [s[..Find(s, sep)]] + Split(s[Find(s, sep) + 1..], sep)
  {
    var i := Find(s, sep);
    CutAt(s, i);
    SplitCons(s[..i], s[i + 1..], sep);
  }
}
