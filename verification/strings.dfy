/** Splitting a string around every occurrence of a separator character, as the
    mail-address parser does, and joining the pieces back. */
module Strings {

  /** Number of occurrences of `ch` in `s`. */
  function Count(s: string, ch: char): nat
  {
    if s == [] then 0
    else (if s[0] == ch then 1 else 0) + Count(s[1..], ch)
  }

  /** The pieces separated by `sep`, in order; an empty string gives one empty piece.
      Splitting and joining are inverse: joining the pieces gives `s` back, and the
      pieces are exactly one more than the separators and hold none of them. */
  function Split(s: string, sep: char): (parts: seq<string>)
    ensures |parts| == Count(s, sep) + 1
    ensures forall i :: 0 <= i < |parts| ==> sep !in parts[i]
    ensures Join(parts, sep) == s
  {
    if s == [] then [""]
    else
      var rest := Split(s[1..], sep);
      if s[0] == sep then [""] + rest
      else
        JoinConsFirst(s[0], rest, sep);
        [[s[0]] + rest[0]] + rest[1..]
  }

  /** The pieces with `sep` between neighbours. */
  function Join(parts: seq<string>, sep: char): string
  {
    if |parts| == 0 then ""
    else if |parts| == 1 then parts[0]
    else parts[0] + [sep] + Join(parts[1..], sep)
  }

  /** Prefixing a character to the first piece prefixes it to the joined string. */
  lemma JoinConsFirst(c: char, parts: seq<string>, sep: char)
    requires |parts| >= 1
    ensures Join([[c] + parts[0]] + parts[1..], sep) == [c] + Join(parts, sep)
  {
    var q := [[c] + parts[0]] + parts[1..];
    assert q[1..] == parts[1..];
  }

  /** The other direction of the round trip: pieces without separators are
      recovered by splitting their join. */
  lemma {:induction false} SplitJoin(parts: seq<string>, sep: char)
    requires |parts| >= 1
    requires forall i :: 0 <= i < |parts| ==> sep !in parts[i]
    ensures Split(Join(parts, sep), sep) == parts
  {
    if |parts| == 1 {
      SplitNoSep(parts[0], sep);
    } else {
      SplitJoin(parts[1..], sep);
      SplitPrefix(parts[0], Join(parts[1..], sep), sep);
      assert [parts[0]] + parts[1..] == parts;
    }
  }

  /** A string without the separator is one piece. */
  lemma {:induction false} SplitNoSep(s: string, sep: char)
    requires sep !in s
    ensures Split(s, sep) == [s]
  {
    if s != [] {
      SplitNoSep(s[1..], sep);
      assert [s[0]] + s[1..] == s;
    }
  }

  /** Splitting `p + [sep] + t`, where `p` has no separator, gives `p` followed by
      the pieces of `t`. */
  lemma {:induction false} SplitPrefix(p: string, t: string, sep: char)
    requires sep !in p
    ensures Split(p + [sep] + t, sep) == [p] + Split(t, sep)
  {
    var s := p + [sep] + t;
    if p == [] {
      assert s[1..] == t;
    } else {
      assert s[1..] == p[1..] + [sep] + t;
      SplitPrefix(p[1..], t, sep);
      assert [p[0]] + p[1..] == p;
    }
  }

  /** With exactly one separator, the two pieces are the text before and after it. */
  lemma SplitOnce(s: string, sep: char)
    requires Count(s, sep) == 1
    ensures var parts := Split(s, sep);
      |parts| == 2 && parts[0] + [sep] + parts[1] == s && sep !in parts[0] && sep !in parts[1]
  {
    var parts := Split(s, sep);
    assert Join(parts, sep) == parts[0] + [sep] + Join(parts[1..], sep);
  }

  /** Conversely, a string written as `local + [sep] + domain` with no separator in
      either half splits into exactly those halves. */
  lemma SplitAround(local: string, domain: string, sep: char)
    requires sep !in local && sep !in domain
    ensures Split(local + [sep] + domain, sep) == [local, domain]
    ensures Count(local + [sep] + domain, sep) == 1
  {
    var parts := [local, domain];
    assert parts[1..] == [domain];
    assert Join(parts, sep) == local + [sep] + domain;
    SplitJoin(parts, sep);
  }
}
