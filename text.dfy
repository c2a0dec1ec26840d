/**
 * The three string operations the migration scanner relies on: Go's
 * `strings.HasPrefix`, `strings.HasSuffix` and the `+=` that joins lines
 * into a pending statement.
 */
module Text {

  /** `strings.HasPrefix(s, prefix)`. */
  predicate HasPrefix(s: string, prefix: string)
  {
    |prefix| <= |s| && s[..|prefix|] == prefix
  }

  /** `strings.HasSuffix(s, suffix)`. */
  predicate HasSuffix(s: string, suffix: string)
  {
    |suffix| <= |s| && s[|s| - |suffix|..] == suffix
  }

  /** The lines joined in order with no separator, as repeated `stmt += line` builds them. */
  function Concat(lines: seq<string>): string
  {
    if lines == [] then "" else Concat(lines[..|lines| - 1]) + lines[|lines| - 1]
  }

  /** Joining two runs of lines is joining each and then the two results. */
  lemma {:induction false} ConcatAppend(a: seq<string>, b: seq<string>)
    ensures Concat(a + b) == Concat(a) + Concat(b)
    decreases |b|
  {
    if b == [] {
      assert a + b == a;
    } else {
      var b', last := b[..|b| - 1], b[|b| - 1];
      assert a + b == (a + b') + [last] && b == b' + [last];
      ConcatAppend(a, b');
      ConcatPush(a + b', last);
      ConcatPush(b', last);
    }
  }

  /** The first `n` lines joined are the first `n - 1` joined, then line `n - 1`. */
  lemma ConcatSnoc(lines: seq<string>, n: nat)
    requires 0 < n <= |lines|
    ensures Concat(lines[..n]) == Concat(lines[..n - 1]) + lines[n - 1]
  {
    assert lines[..n][..n - 1] == lines[..n - 1];
  }

  /** Joining one more line appends it. */
  lemma ConcatPush(lines: seq<string>, line: string)
    ensures Concat(lines + [line]) == Concat(lines) + line
  {
    assert (lines + [line])[..|lines|] == lines;
  }
}
