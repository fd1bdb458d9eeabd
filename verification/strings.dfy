/** The PHP and Laravel string primitives the generator relies on: `explode`,
    `implode`, `trim`, `strtolower`, `str_replace` of one character,
    `Str::contains`, `Str::replaceFirst` and `class_basename`. Strings are
    sequences of characters; every character is one PHP byte. */
module Strings {

  import opened Wrappers

  /** PHP truthiness of a string: only "" and "0" are falsy. */
  predicate Falsy(s: string) {
    s == "" || s == "0"
  }

  /** `Str::contains(s, sub)` for a non-empty needle. */
  function Contains(s: string, sub: string): bool
    decreases |s|
  {
    sub <= s || (|s| > 0 && Contains(s[1..], sub))
  }

  /** `implode(c, parts)`. */
  function Join(parts: seq<string>, c: char): string
  {
    if |parts| == 0 then ""
    else if |parts| == 1 then parts[0]
    else parts[0] + [c] + Join(parts[1..], c)
  }

  /** `explode(c, s)` without a limit: the pieces between occurrences of `c`.
      The empty string gives one empty piece, as in PHP. */
  function Split(s: string, c: char): (parts: seq<string>)
    ensures |parts| >= 1
    ensures forall i :: 0 <= i < |parts| ==> c !in parts[i]
    ensures Join(parts, c) == s
    decreases |s|
  {
    if |s| == 0 then [""]
    else
      var rest := Split(s[1..], c);
      if s[0] == c then
        [""] + rest
      else
        assert [s[0]] + Join(rest, c) == s;
        JoinConsHead(s[0], rest, c);
        [[s[0]] + rest[0]] + rest[1..]
  }

  /** Prepending a character to the first piece prepends it to the joined string. */
  lemma JoinConsHead(x: char, parts: seq<string>, c: char)
    requires |parts| >= 1
    ensures Join([[x] + parts[0]] + parts[1..], c) == [x] + Join(parts, c)
  {
    var ps := [[x] + parts[0]] + parts[1..];
    assert ps[1..] == parts[1..];
  }

  /** A string without the separator splits into itself. */
  lemma SplitWithoutSeparator(s: string, c: char)
    requires c !in s
    ensures Split(s, c) == [s]
  {
  }

  /** A string containing the separator splits into at least two pieces. */
  lemma SplitWithSeparator(s: string, c: char)
    requires c in s
    ensures |Split(s, c)| >= 2
  {
  }

  /** Splitting `p + [c] + t` where `p` has no separator peels off `p`. */
  lemma {:induction false} SplitAfterPiece(p: string, t: string, c: char)
    requires c !in p
    ensures Split(p + [c] + t, c) == [p] + Split(t, c)
    decreases |p|
  {
    var s := p + [c] + t;
    if |p| == 0 {
      assert s[1..] == t;
    } else {
      assert s[1..] == p[1..] + [c] + t;
      SplitAfterPiece(p[1..], t, c);
      assert [p[0]] + p[1..] == p;
    }
  }

  /** Round trip: splitting a join of separator-free pieces gives the pieces back. */
  lemma {:induction false} SplitJoin(parts: seq<string>, c: char)
    requires |parts| >= 1
    requires forall i :: 0 <= i < |parts| ==> c !in parts[i]
    ensures Split(Join(parts, c), c) == parts
    decreases |parts|
  {
    if |parts| == 1 {
      SplitWithoutSeparator(parts[0], c);
    } else {
      SplitJoin(parts[1..], c);
      SplitAfterPiece(parts[0], Join(parts[1..], c), c);
      assert [parts[0]] + parts[1..] == parts;
    }
  }

  /** `explode(c, s, 2)`: the text before the first `c`, and the text after it
      when there is one. */
  function SplitOnce(s: string, c: char): (r: (string, Option<string>))
    ensures c !in r.0
    ensures r.1.None? <==> c !in s
    ensures r.1.None? ==> r.0 == s
    ensures r.1.Some? ==> s == r.0 + [c] + r.1.value
    decreases |s|
  {
    if |s| == 0 then ("", None)
    else if s[0] == c then ("", Some(s[1..]))
    else
      var rest := SplitOnce(s[1..], c);
      assert s == [s[0]] + s[1..];
      ([s[0]] + rest.0, rest.1)
  }

  /** The whitespace set of PHP's `trim` with no character list. */
  const Whitespace: set<char> := {' ', '\t', '\n', '\r', '\0', 11 as char}

  function TrimLeft(s: string, cs: set<char>): (r: string)
    ensures |r| <= |s| && r == s[|s| - |r|..]
    ensures |r| == 0 || r[0] !in cs
    ensures forall i :: 0 <= i < |s| - |r| ==> s[i] in cs
    decreases |s|
  {
    if |s| > 0 && s[0] in cs then TrimLeft(s[1..], cs) else s
  }

  function TrimRight(s: string, cs: set<char>): (r: string)
    ensures |r| <= |s| && r == s[..|r|]
    ensures |r| == 0 || r[|r| - 1] !in cs
    ensures forall i :: |r| <= i < |s| ==> s[i] in cs
    decreases |s|
  {
    if |s| > 0 && s[|s| - 1] in cs then TrimRight(s[..|s| - 1], cs) else s
  }

  /** `trim(s, cs)`: strip characters of `cs` from both ends. */
  function Trim(s: string, cs: set<char>): (r: string)
  {
    TrimRight(TrimLeft(s, cs), cs)
  }

  /** Trim yields a contiguous piece of its input with no edge character in `cs`,
      and everything it removed was in `cs`. */
  lemma TrimSpec(s: string, cs: set<char>)
    ensures var r := Trim(s, cs);
            && (|r| == 0 || (r[0] !in cs && r[|r| - 1] !in cs))
            && exists a, b :: 0 <= a <= b <= |s| && r == s[a..b]
                 && (forall i :: 0 <= i < a ==> s[i] in cs)
                 && (forall i :: b <= i < |s| ==> s[i] in cs)
  {
    var a, b := TrimBounds(s, cs);
  }

  /** Where `trim` cuts: everything before `a` and from `b` on is in `cs`. */
  lemma TrimBounds(s: string, cs: set<char>) returns (a: nat, b: nat)
    ensures a <= b <= |s| && Trim(s, cs) == s[a..b]
    ensures forall i :: 0 <= i < a ==> s[i] in cs
    ensures forall i :: b <= i < |s| ==> s[i] in cs
    ensures a < b ==> s[a] !in cs && s[b - 1] !in cs
  {
    var l := TrimLeft(s, cs);
    a := |s| - |l|;
    b := a + |Trim(s, cs)|;
    TrimSlice(s, cs, l, Trim(s, cs));
  }

  /** Trimming the right of a suffix of `s` leaves a slice of `s` whose
      right-hand remainder is in `cs`. */
  lemma TrimSlice(s: string, cs: set<char>, l: string, r: string)
    requires |l| <= |s| && l == s[|s| - |l|..]
    requires r == TrimRight(l, cs)
    ensures r == s[|s| - |l|..|s| - |l| + |r|]
    ensures forall i :: |s| - |l| + |r| <= i < |s| ==> s[i] in cs
    ensures |r| > 0 ==> s[|s| - |l|] == l[0] && s[|s| - |l| + |r| - 1] == r[|r| - 1]
  {
    var a := |s| - |l|;
    assert r == l[..|r|];
    forall i | a + |r| <= i < |s| ensures s[i] in cs {
      assert s[i] == l[i - a];
    }
  }

  /** Trimming is idempotent. */
  lemma TrimIdempotent(s: string, cs: set<char>)
    ensures Trim(Trim(s, cs), cs) == Trim(s, cs)
  {
  }

  function LowerChar(ch: char): char {
    if 'A' <= ch <= 'Z' then (ch as int + 32) as char else ch
  }

  /** `strtolower` on ASCII letters. */
  function ToLower(s: string): (r: string)
    ensures |r| == |s|
    ensures forall i :: 0 <= i < |r| ==> !('A' <= r[i] <= 'Z')
    ensures forall i :: 0 <= i < |s| && !('A' <= s[i] <= 'Z') ==> r[i] == s[i]
  {
    seq(|s|, i requires 0 <= i < |s| => LowerChar(s[i]))
  }

  /** `str_replace(c, '', s)`: every occurrence of `c` removed. */
  function RemoveChar(s: string, c: char): (r: string)
    ensures c !in r
    ensures |r| <= |s|
    ensures c !in s ==> r == s
    decreases |s|
  {
    if |s| == 0 then ""
    else if s[0] == c then RemoveChar(s[1..], c)
    else [s[0]] + RemoveChar(s[1..], c)
  }

  /** Removal distributes over concatenation. */
  lemma {:induction false} RemoveCharAppend(a: string, b: string, c: char)
    ensures RemoveChar(a + b, c) == RemoveChar(a, c) + RemoveChar(b, c)
    decreases |a|
  {
    if |a| > 0 {
      assert (a + b)[1..] == a[1..] + b;
      RemoveCharAppend(a[1..], b, c);
    } else {
      assert a + b == b;
    }
  }

  /** `strpos(s, search)`: the place of the first occurrence of `search`,
      `None` (PHP `false`) when there is none. */
  function FirstIndex(search: string, s: string): (r: Option<nat>)
    ensures r.None? <==> !Contains(s, search)
    ensures r.Some? ==> r.value + |search| <= |s|
    decreases |s|
  {
    if search <= s then Some(0)
    else if |s| == 0 then None
    else
      match FirstIndex(search, s[1..])
      case None => None
      case Some(k) => Some(k + 1)
  }

  /** The place `strpos` finds is an occurrence, and no earlier place is. */
  lemma {:induction false} FirstIndexFirst(search: string, s: string)
    requires FirstIndex(search, s).Some?
    ensures var i := FirstIndex(search, s).value;
            && s[i..i + |search|] == search
            && forall j :: 0 <= j < i ==> !(search <= s[j..])
    decreases |s|
  {
    if !(search <= s) {
      var k := FirstIndex(search, s[1..]).value;
      assert FirstIndex(search, s) == Some(k + 1);
      FirstIndexFirst(search, s[1..]);
      TailSlice(s, k, k + |search|);
      forall j | 0 < j <= k ensures !(search <= s[j..]) {
        TailDrop(s, j - 1);
      }
    }
  }

  /** A slice of the tail is the slice of `s` one place further on. */
  lemma TailSlice<T>(s: seq<T>, a: nat, b: nat)
    requires a <= b < |s|
    ensures s[1..][a..b] == s[a + 1..b + 1]
  {
  }

  /** A suffix of the tail is the suffix of `s` one place further on. */
  lemma TailDrop<T>(s: seq<T>, a: nat)
    requires a < |s|
    ensures s[1..][a..] == s[a + 1..]
  {
  }

  /** Laravel `Str::replaceFirst(search, repl, s)`: an empty `search` changes
      nothing; otherwise `substr_replace` at the first occurrence, if any. */
  function ReplaceFirst(search: string, repl: string, s: string): (r: string)
    ensures search == "" || !Contains(s, search) ==> r == s
    ensures search != "" && search <= s ==> r == repl + s[|search|..]
  {
    if search == "" then s
    else
      match FirstIndex(search, s)
      case None => s
      case Some(p) =>
        assert search <= s ==> p == 0 && s[..p] == [];
        s[..p] + repl + s[p + |search|..]
  }

  /** Where a non-empty `search` occurs, the text before its first occurrence
      is kept, that occurrence becomes `repl`, and the rest is kept. */
  lemma ReplaceFirstSplit(search: string, repl: string, s: string) returns (i: nat)
    requires search != "" && Contains(s, search)
    ensures i + |search| <= |s| && s[i..i + |search|] == search
    ensures forall j :: 0 <= j < i ==> !(search <= s[j..])
    ensures ReplaceFirst(search, repl, s) == s[..i] + repl + s[i + |search|..]
  {
    i := FirstIndex(search, s).value;
    FirstIndexFirst(search, s);
  }

  /** `class_basename`: the part of a class name after its last `\`. */
  function ClassBasename(s: string): string
    decreases |s|
  {
    if |s| == 0 then ""
    else if s[|s| - 1] == '\\' then ""
    else ClassBasename(s[..|s| - 1]) + [s[|s| - 1]]
  }

  /** The base name is the longest suffix without a `\`: it is preceded by a
      `\` or by nothing. Stated apart from the function so that the many
      definitions keyed by base names do not carry it. */
  lemma {:induction false} ClassBasenameSpec(s: string)
    ensures var r := ClassBasename(s);
            && '\\' !in r
            && |r| <= |s| && r == s[|s| - |r|..]
            && (|r| == |s| || s[|s| - |r| - 1] == '\\')
    decreases |s|
  {
    if |s| > 0 && s[|s| - 1] != '\\' {
      var p := s[..|s| - 1];
      ClassBasenameSpec(p);
      var r := ClassBasename(p);
      assert s[|s| - |r| - 1..] == p[|p| - |r|..] + [s[|s| - 1]];
    }
  }

  /** Keep the first occurrence of each value, in order (`array_unique` followed
      by reading the values in order). */
  function Dedup(s: seq<string>): (r: seq<string>)
    ensures Distinct(r)
    ensures forall x :: x in r <==> x in s
    ensures |r| <= |s|
  {
    DedupFrom(s, [])
  }

  predicate Distinct<T(==)>(s: seq<T>) {
    forall i, j :: 0 <= i < j < |s| ==> s[i] != s[j]
  }

  function DedupFrom(s: seq<string>, seen: seq<string>): (r: seq<string>)
    requires Distinct(seen)
    ensures Distinct(r)
    ensures seen <= r
    ensures forall x :: x in r <==> x in s || x in seen
    ensures |r| <= |s| + |seen|
    decreases |s|
  {
    if |s| == 0 then seen
    else if s[0] in seen then DedupFrom(s[1..], seen)
    else DedupFrom(s[1..], seen + [s[0]])
  }

  /** Deduplicating a concatenation keeps the deduplicated first part as a prefix. */
  lemma DedupAppendPrefix(a: seq<string>, b: seq<string>)
    ensures Dedup(a) <= Dedup(a + b)
  {
    DedupFromAppend(a, b, []);
  }

  lemma {:induction false} DedupFromAppend(a: seq<string>, b: seq<string>, seen: seq<string>)
    requires Distinct(seen)
    ensures DedupFrom(a + b, seen) == DedupFrom(b, DedupFrom(a, seen))
    decreases |a|
  {
    if |a| == 0 {
      assert a + b == b;
    } else {
      assert (a + b)[0] == a[0];
      assert (a + b)[1..] == a[1..] + b;
      if a[0] in seen {
        DedupFromAppend(a[1..], b, seen);
      } else {
        DedupFromAppend(a[1..], b, seen + [a[0]]);
      }
    }
  }

  /** An already distinct sequence is its own deduplication. */
  lemma DedupDistinct(s: seq<string>)
    requires Distinct(s)
    ensures Dedup(s) == s
  {
    DedupFromDistinct(s, []);
  }

  lemma {:induction false} DedupFromDistinct(s: seq<string>, seen: seq<string>)
    requires Distinct(seen) && Distinct(seen + s)
    ensures DedupFrom(s, seen) == seen + s
    decreases |s|
  {
    if |s| > 0 {
      assert s[0] !in seen by {
        forall i | 0 <= i < |seen| ensures seen[i] != s[0] {
          assert (seen + s)[i] == seen[i] && (seen + s)[|seen|] == s[0];
        }
      }
      assert seen + [s[0]] + s[1..] == seen + s;
      DedupFromDistinct(s[1..], seen + [s[0]]);
    }
  }

}
