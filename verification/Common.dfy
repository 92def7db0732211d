/** Shared vocabulary of the controllers: optional request fields, results with
    error tags, JavaScript truthiness of a string field and String.prototype.split
    on a one-character separator. */
module Common {

  /** A request field that may be absent (`undefined` in the request body). */
  datatype Option<+T> = None | Some(value: T)

  /** The outcome of a handler's try block: a value, or the error it threw. */
  datatype Result<+T, +E> = Ok(value: T) | Err(error: E)

  /** JavaScript truthiness of a string-valued body field: `undefined` and the empty
      string are falsy, every other string is truthy (`if (!email) ...`). */
  predicate Truthy(f: Option<string>)
  {
    f.Some? && f.value != ""
  }

  /** HTTP status codes the handlers answer with. */
  const Ok200: nat := 200
  const Created201: nat := 201
  const NoContent204: nat := 204
  const BadRequest400: nat := 400
  const Unauthorized401: nat := 401
  const Forbidden403: nat := 403
  const NotFound404: nat := 404

  /** A table write that touched at most the row under `id`: no row appears or
      disappears and every other row is unchanged. */
  predicate OnlyChanged<K, V(==)>(s: map<K, V>, s': map<K, V>, id: K)
  {
    && s'.Keys == s.Keys
    && forall k :: k in s && k != id ==> s'[k] == s[k]
  }

  /** Number of occurrences of `c` in `s`. */
  function Count(s: string, c: char): (n: nat)
    ensures n <= |s|
    ensures n == 0 <==> c !in s
  {
    if |s| == 0 then 0
    else (if s[0] == c then 1 else 0) + Count(s[1..], c)
  }

  /** Inverse of `Split`: the parts glued back together with the separator. */
  function Join(parts: seq<string>, sep: char): (s: string)
    requires |parts| >= 1
    ensures |s| >= |parts| - 1
  {
    if |parts| == 1 then parts[0]
    else parts[0] + [sep] + Join(parts[1..], sep)
  }

  /** `s.split(sep)` for a one-character separator: the maximal separator-free
      segments of `s`, in order, including empty ones; there is always at least
      one part and one more part than there are separators. */
  function Split(s: string, sep: char): (parts: seq<string>)
    ensures |parts| == Count(s, sep) + 1
    ensures forall i :: 0 <= i < |parts| ==> sep !in parts[i]
    decreases |s|
  {
    if |s| == 0 then [""]
    else if s[0] == sep then [""] + Split(s[1..], sep)
    else
      var rest := Split(s[1..], sep);
      [[s[0]] + rest[0]] + rest[1..]
  }

  /** Splitting loses nothing: joining the parts with the separator gives back the
      original string. */
  lemma {:induction false} JoinSplit(s: string, sep: char)
    ensures Join(Split(s, sep), sep) == s
    decreases |s|
  {
    if |s| > 0 {
      var rest := Split(s[1..], sep);
      JoinSplit(s[1..], sep);
      assert s == [s[0]] + s[1..];
      if s[0] == sep {
        assert Split(s, sep) == [""] + rest;
        assert Join([""] + rest, sep) == "" + [sep] + Join(rest, sep);
      } else {
        assert Split(s, sep) == [[s[0]] + rest[0]] + rest[1..];
        JoinExtendHead(s[0], rest, sep);
      }
    }
  }

  /** Prepending a character to the first part prepends it to the joined string. */
  lemma JoinExtendHead(c: char, parts: seq<string>, sep: char)
    requires |parts| >= 1
    ensures Join([[c] + parts[0]] + parts[1..], sep) == [c] + Join(parts, sep)
  {
    var parts' := [[c] + parts[0]] + parts[1..];
    assert parts'[1..] == parts[1..];
  }

  /** The segment of `s` that precedes its first occurrence of `sep` (all of `s`
      when there is none). */
  function PrefixBefore(s: string, sep: char): (p: string)
    ensures sep !in p
    ensures p <= s
    ensures |p| < |s| ==> s[|p|] == sep
  {
    if |s| == 0 || s[0] == sep then "" else [s[0]] + PrefixBefore(s[1..], sep)
  }

  /** Splitting `[sep] + rest` yields the empty segment followed by the segment of
      `rest` up to its next separator. */
  lemma {:induction false} SplitAfterSeparator(s: string, sep: char)
    requires |s| > 0 && s[0] == sep
    ensures |Split(s, sep)| >= 2
    ensures Split(s, sep)[1] == PrefixBefore(s[1..], sep)
  {
    FirstPartIsPrefix(s[1..], sep);
  }

  /** The first part of a split is the text before the first separator. */
  lemma {:induction false} FirstPartIsPrefix(s: string, sep: char)
    ensures Split(s, sep)[0] == PrefixBefore(s, sep)
    decreases |s|
  {
    if |s| > 0 && s[0] != sep {
      FirstPartIsPrefix(s[1..], sep);
    }
  }

  /** For `head + [sep] + tail` where `head` holds no separator, the second part of
      the split is the segment of `tail` up to its next separator. */
  lemma {:induction false} SecondPartAfterHead(head: string, tail: string, sep: char)
    requires sep !in head
    ensures |Split(head + [sep] + tail, sep)| >= 2
    ensures Split(head + [sep] + tail, sep)[1] == PrefixBefore(tail, sep)
    decreases |head|
  {
    var s := head + [sep] + tail;
    if |head| == 0 {
      assert s == [sep] + tail;
      SplitAfterSeparator(s, sep);
      assert s[1..] == tail;
    } else {
      assert s[0] == head[0] && s[0] != sep;
      assert s[1..] == head[1..] + [sep] + tail;
      SecondPartAfterHead(head[1..], tail, sep);
    }
  }

  /** Without a separator, the text before the first separator is everything. */
  lemma {:induction false} PrefixBeforeWhole(s: string, sep: char)
    requires sep !in s
    ensures PrefixBefore(s, sep) == s
  {
    if |s| > 0 {
      assert sep !in s[1..] by {
        forall i | 0 <= i < |s[1..]| ensures s[1..][i] != sep { assert s[1..][i] == s[i + 1]; }
      }
      PrefixBeforeWhole(s[1..], sep);
      assert s == [s[0]] + s[1..];
    }
  }
}
