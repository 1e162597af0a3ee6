/** Searching in texts. */
module Strings {
  predicate StartsWith(s: string, prefix: string) {
    |prefix| <= |s| && s[..|prefix|] == prefix
  }

  /** The first place of c in s, |s| if there is none. */
  function IndexOf(s: string, c: char): (i: nat)
    ensures i <= |s| && (forall k :: 0 <= k < i ==> s[k] != c) && (i < |s| ==> s[i] == c)
  {
    if s == "" then 0 else if s[0] == c then 0 else 1 + IndexOf(s[1..], c)
  }

  /** `xs.join(',')` */
  function Join(xs: seq<string>): string {
    if xs == [] then "" else if |xs| == 1 then xs[0] else xs[0] + "," + Join(xs[1..])
  }

  /** Joining adds a comma and the text. */
  lemma {:induction false} JoinSnoc(xs: seq<string>, x: string)
    ensures Join([x]) == x
    ensures xs != [] ==> Join(xs + [x]) == Join(xs) + "," + x
    decreases |xs|
  {
    if xs != [] {
      var all := xs + [x];
      assert all[0] == xs[0] && all[1..] == xs[1..] + [x];
      if |xs| > 1 {
        JoinSnoc(xs[1..], x);
        assert xs[0] + "," + (Join(xs[1..]) + "," + x) == (xs[0] + "," + Join(xs[1..])) + "," + x;
      } else {
        assert all[1..] == [x];
      }
    }
  }

  /** A prefix without c ends no later than where c stands. */
  lemma {:induction false} PrefixEnds(s: string, k: nat, prefix: string, c: char)
    requires k < |s| && s[k] == c && prefix <= s && c !in prefix
    ensures |prefix| <= k
  {
    forall i | 0 <= i < |prefix| ensures s[i] != c { assert s[i] == prefix[i]; }
  }

  /** A text splits in one way only at the first c. */
  lemma {:induction false} SplitAtFirst(a: string, b: string, x: string, y: string, c: char)
    requires a + ([c] + b) == x + ([c] + y) && c !in a && c !in x
    ensures a == x && b == y
  {
    var s := a + ([c] + b);
    assert s[|a|] == c && s[|x|] == c;
    PrefixEnds(s, |a|, x, c);
    PrefixEnds(s, |x|, a, c);
    assert s[..|a|] == a && s[..|x|] == x && s[|a| + 1..] == b && s[|x| + 1..] == y;
  }

  /** What `parseInt` skips at the front. */
  predicate IsSpace(c: char) {
    || '\t' <= c <= '\r' || c == ' ' || c == '\U{A0}' || c == '\U{1680}' || '\U{2000}' <= c <= '\U{200A}'
    || c == '\U{2028}' || c == '\U{2029}' || c == '\U{202F}' || c == '\U{205F}' || c == '\U{3000}' || c == '\U{FEFF}'
  }
}
