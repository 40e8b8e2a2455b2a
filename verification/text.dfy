/**
 The few .NET string primitives the core relies on: white-space tests,
 invariant ignore-case comparison (approximated by ASCII lower-casing),
 `IndexOf`, `LastIndexOf` and `Split`.
 */
module Text {
  import opened Results

  /** `char.IsWhiteSpace`: the Unicode space, line and paragraph separators,
      the controls U+0009..U+000D and U+0085. */
  predicate IsWhiteSpace(c: char) {
    var n := c as int;
    || n == 0x20 || 0x09 <= n <= 0x0D || n == 0x85 || n == 0xA0 || n == 0x1680
    || 0x2000 <= n <= 0x200A || n == 0x2028 || n == 0x2029 || n == 0x202F
    || n == 0x205F || n == 0x3000
  }

  /** `IsNullOrWhitespace`: null, empty, or white space only. */
  predicate IsNullOrWhiteSpace(s: Option<string>) {
    match s
    case None => true
    case Some(v) => forall i | 0 <= i < |v| :: IsWhiteSpace(v[i])
  }

  function LowerChar(c: char): char {
    if 'A' <= c <= 'Z' then (c as int + 32) as char else c
  }

  /** `ToLowerInvariant`, restricted to ASCII letters. */
  function Lower(s: string): string {
    seq(|s|, i requires 0 <= i < |s| => LowerChar(s[i]))
  }

  lemma {:induction false} LowerIdempotent(s: string)
    ensures Lower(Lower(s)) == Lower(s)
  {
  }

  /** `string.Equals(a, b, InvariantCultureIgnoreCase)`: two nulls are equal,
      a null never equals a string. */
  predicate EqualsIgnoreCase(a: Option<string>, b: Option<string>) {
    match (a, b)
    case (None, None) => true
    case (Some(x), Some(y)) => Lower(x) == Lower(y)
    case _ => false
  }

  /** `s.IndexOf(c)`: the first position of `c`, or -1. */
  function IndexOf(s: string, c: char): (i: int)
    ensures -1 <= i < |s|
    ensures i == -1 <==> c !in s
    ensures 0 <= i ==> s[i] == c && c !in s[..i]
  {
    if |s| == 0 then -1
    else if s[0] == c then 0
    else
      var j := IndexOf(s[1..], c);
      if j < 0 then -1
      else
        assert s[..j + 1] == [s[0]] + s[1..][..j];
        j + 1
  }

  /** `s.LastIndexOf(c)`: the last position of `c`, or -1. */
  function LastIndexOf(s: string, c: char): (i: int)
    ensures -1 <= i < |s|
    ensures i == -1 <==> c !in s
    ensures 0 <= i ==> s[i] == c && c !in s[i + 1..]
  {
    var i := LastBefore(s, c, |s|);
    if 0 <= i then NoneAfter(s, c, i); i else i
  }

  lemma {:induction false} NoneAfter(s: string, c: char, i: nat)
    requires i < |s|
    requires forall k | i < k < |s| :: s[k] != c
    ensures c !in s[i + 1..]
  {
    var t := s[i + 1..];
    forall k | 0 <= k < |t| ensures t[k] != c {
      assert t[k] == s[i + 1 + k];
    }
  }

  /** The last position of `c` among the first `n` characters of `s`, or -1. */
  function LastBefore(s: string, c: char, n: nat): (i: int)
    requires n <= |s|
    ensures -1 <= i < n
    ensures i == -1 <==> forall k | 0 <= k < n :: s[k] != c
    ensures 0 <= i ==> s[i] == c && forall k | i < k < n :: s[k] != c
    decreases n
  {
    if n == 0 then -1
    else if s[n - 1] == c then n - 1
    else LastBefore(s, c, n - 1)
  }

  /** `s.Split(sep)` with empty parts kept. */
  function Split(s: string, sep: char): (parts: seq<string>)
    ensures |parts| >= 1
    ensures forall k | 0 <= k < |parts| :: sep !in parts[k]
    decreases |s|
  {
    var i := IndexOf(s, sep);
    if i < 0 then [s] else [s[..i]] + Split(s[i + 1..], sep)
  }

  /** `string.Join(sep, parts)`. */
  function Join(parts: seq<string>, sep: char): string
    decreases |parts|
  {
    if |parts| == 0 then ""
    else if |parts| == 1 then parts[0]
    else parts[0] + [sep] + Join(parts[1..], sep)
  }

  /** Joining a head onto a non-empty tail puts one separator between them. */
  lemma {:induction false} JoinCons(head: string, tail: seq<string>, sep: char)
    requires |tail| >= 1
    ensures Join([head] + tail, sep) == head + [sep] + Join(tail, sep)
  {
    assert ([head] + tail)[1..] == tail;
  }

  /** The total length of the parts. */
  function TotalLength(parts: seq<string>): nat {
    if |parts| == 0 then 0 else |parts[0]| + TotalLength(parts[1..])
  }

  /** A join is as long as its parts plus one separator between each two. */
  lemma {:induction false} JoinLength(parts: seq<string>, sep: char)
    requires |parts| >= 1
    ensures |Join(parts, sep)| == TotalLength(parts) + |parts| - 1
    decreases |parts|
  {
    if |parts| > 1 {
      JoinLength(parts[1..], sep);
    }
  }

  function Sum(w: seq<nat>): nat {
    if |w| == 0 then 0 else w[0] + Sum(w[1..])
  }

  /** Parts that are longer than their counterparts by `w[k] * n` each add
      up to a total longer by `Sum(w) * n`. */
  lemma {:induction false} WeightedTotal(a: seq<string>, b: seq<string>, w: seq<nat>, n: nat)
    requires |a| == |b| == |w|
    requires forall k | 0 <= k < |a| :: |a[k]| == |b[k]| + w[k] * n
    ensures TotalLength(a) == TotalLength(b) + Sum(w) * n
    decreases |a|
  {
    if |a| > 0 {
      WeightedTotal(a[1..], b[1..], w[1..], n);
    }
  }

  /** Splitting and joining again gives back the string. */
  lemma {:induction false} JoinSplit(s: string, sep: char)
    ensures Join(Split(s, sep), sep) == s
    decreases |s|
  {
    var i := IndexOf(s, sep);
    if 0 <= i {
      var head, rest := s[..i], s[i + 1..];
      var tail := Split(rest, sep);
      assert Split(s, sep) == [head] + tail;
      JoinSplit(rest, sep);
      JoinCons(head, tail, sep);
      CutAt(s, i);
    }
  }

  /** A string is its part before position `i`, the character at `i`, and
      its part after. */
  lemma {:induction false} CutAt(s: string, i: int)
    requires 0 <= i < |s|
    ensures s == s[..i] + [s[i]] + s[i + 1..]
  {
  }

  /** Joining parts that do not contain the separator and splitting again
      gives back the parts. */
  lemma {:induction false} SplitJoin(parts: seq<string>, sep: char)
    requires |parts| >= 1
    requires forall k | 0 <= k < |parts| :: sep !in parts[k]
    ensures Split(Join(parts, sep), sep) == parts
    decreases |parts|
  {
    if |parts| > 1 {
      var head, tail := parts[0], parts[1..];
      assert parts == [head] + tail;
      var rest := Join(tail, sep);
      JoinCons(head, tail, sep);
      IndexOfAfter(head, sep, rest);
      SplitJoin(tail, sep);
    } else {
      assert Join(parts, sep) == parts[0];
    }
  }

  /** The separator placed right after a separator-free prefix is the first one. */
  lemma {:induction false} IndexOfAfter(head: string, sep: char, rest: string)
    requires sep !in head
    ensures IndexOf(head + [sep] + rest, sep) == |head|
    ensures (head + [sep] + rest)[..|head|] == head
    ensures (head + [sep] + rest)[|head| + 1..] == rest
  {
    var s := head + [sep] + rest;
    assert s[..|head|] == head;
    assert s[|head|] == sep;
  }

  /** A character absent from a string is absent from every part of its split. */
  lemma {:induction false} SplitKeepsAbsent(s: string, sep: char, x: char)
    requires x !in s
    ensures forall k | 0 <= k < |Split(s, sep)| :: x !in Split(s, sep)[k]
    decreases |s|
  {
    var i := IndexOf(s, sep);
    if 0 <= i {
      var rest := s[i + 1..];
      assert forall c | c in rest :: c in s;
      assert forall c | c in s[..i] :: c in s;
      SplitKeepsAbsent(rest, sep, x);
      assert Split(s, sep) == [s[..i]] + Split(rest, sep);
    }
  }

  /** A separator-free, non-empty string is its own single entry. */
  lemma {:induction false} SingleEntry(s: string, sep: char)
    requires s != "" && sep !in s
    ensures SplitEntries(s, sep) == [s]
  {
    assert Split(s, sep) == [s];
    assert RemoveEmpty([s]) == [s] + RemoveEmpty([]);
  }

  /** The parts of `parts` that are not empty, in order. */
  function RemoveEmpty(parts: seq<string>): (r: seq<string>)
    ensures forall k | 0 <= k < |r| :: r[k] != "" && r[k] in parts
  {
    if |parts| == 0 then []
    else if parts[0] == "" then RemoveEmpty(parts[1..])
    else [parts[0]] + RemoveEmpty(parts[1..])
  }

  /** `s.Split(new[] { sep }, StringSplitOptions.RemoveEmptyEntries)`. */
  function SplitEntries(s: string, sep: char): (entries: seq<string>)
    ensures forall k | 0 <= k < |entries| :: entries[k] != "" && sep !in entries[k]
  {
    RemoveEmpty(Split(s, sep))
  }

  /** Nothing but separators, the empty string included, yields no entries;
      anything else yields at least one. */
  lemma {:induction false} SplitEntriesEmpty(s: string, sep: char)
    ensures SplitEntries(s, sep) == [] <==> forall i | 0 <= i < |s| :: s[i] == sep
    decreases |s|
  {
    var i := IndexOf(s, sep);
    if 0 <= i {
      var rest := s[i + 1..];
      SplitEntriesEmpty(rest, sep);
      SplitEntriesCons(s, sep);
      if i == 0 {
        AllSeparatorsShift(s, sep);
      } else {
        assert s[..i][0] == s[0] != sep;
      }
    } else if |s| > 0 {
      assert Split(s, sep) == [s];
      assert RemoveEmpty([s]) == [s] + RemoveEmpty([]);
      assert s[0] in s;
    } else {
      assert Split(s, sep) == [s];
      assert RemoveEmpty([s]) == RemoveEmpty([]);
    }
  }

  /** The entries of a string with a separator: its first part, when not
      empty, then the entries of the rest. */
  lemma {:induction false} SplitEntriesCons(s: string, sep: char)
    requires sep in s
    ensures var i := IndexOf(s, sep);
            RemoveEmpty(Split(s, sep))
            == (if i == 0 then [] else [s[..i]]) + RemoveEmpty(Split(s[i + 1..], sep))
  {
    var i := IndexOf(s, sep);
    SplitAtFirst(s, sep);
    RemoveEmptyCons(s[..i], Split(s[i + 1..], sep));
  }

  /** A split with a separator is the part before the first separator
      followed by the split of the rest. */
  lemma {:induction false} SplitAtFirst(s: string, sep: char)
    requires sep in s
    ensures Split(s, sep) == [s[..IndexOf(s, sep)]] + Split(s[IndexOf(s, sep) + 1..], sep)
  {
  }

  /** Removing the empty parts of a list with a given head. */
  lemma {:induction false} RemoveEmptyCons(x: string, xs: seq<string>)
    ensures RemoveEmpty([x] + xs) == (if x == "" then [] else [x]) + RemoveEmpty(xs)
  {
    assert ([x] + xs)[0] == x;
    assert ([x] + xs)[1..] == xs;
  }

  /** A string that starts with the separator is all separators exactly when
      the rest of it is. */
  lemma {:induction false} AllSeparatorsShift(s: string, sep: char)
    requires |s| > 0 && s[0] == sep
    ensures (forall i | 0 <= i < |s| :: s[i] == sep) <==> (forall i | 0 <= i < |s| - 1 :: s[1..][i] == sep)
  {
    if forall i | 0 <= i < |s| - 1 :: s[1..][i] == sep {
      forall i | 0 <= i < |s| ensures s[i] == sep {
        if i > 0 {
          assert s[i] == s[1..][i - 1];
        }
      }
    }
  }

  /** Entries that are non-empty and free of the separator survive a join and
      a split unchanged. */
  lemma {:induction false} SplitEntriesJoin(entries: seq<string>, sep: char)
    requires forall k | 0 <= k < |entries| :: entries[k] != "" && sep !in entries[k]
    ensures SplitEntries(Join(entries, sep), sep) == entries
  {
    if |entries| == 0 {
      assert Split("", sep) == [""];
      assert RemoveEmpty([""]) == RemoveEmpty([]);
    } else {
      SplitJoin(entries, sep);
      RemoveEmptyKeeps(entries);
    }
  }

  lemma {:induction false} RemoveEmptyKeeps(parts: seq<string>)
    requires forall k | 0 <= k < |parts| :: parts[k] != ""
    ensures RemoveEmpty(parts) == parts
    decreases |parts|
  {
    if |parts| > 0 {
      RemoveEmptyKeeps(parts[1..]);
    }
  }

  /** `needle` occurs in `hay` starting at `i`. */
  predicate OccursAt(needle: string, hay: string, i: int) {
    0 <= i && i + |needle| <= |hay| && hay[i..i + |needle|] == needle
  }

  /** `hay.Contains(needle)`. */
  predicate Occurs(needle: string, hay: string) {
    exists i | 0 <= i <= |hay| :: OccursAt(needle, hay, i)
  }

  lemma {:induction false} OccursBetween(prefix: string, needle: string, suffix: string)
    ensures Occurs(needle, prefix + needle + suffix)
  {
    var hay := prefix + needle + suffix;
    assert hay[|prefix|..|prefix| + |needle|] == needle;
    assert OccursAt(needle, hay, |prefix|);
  }

  lemma {:induction false} OccursExtend(needle: string, prefix: string, hay: string)
    requires Occurs(needle, hay)
    ensures Occurs(needle, prefix + hay)
  {
    var i :| 0 <= i <= |hay| && OccursAt(needle, hay, i);
    var whole := prefix + hay;
    assert whole[|prefix| + i..|prefix| + i + |needle|] == hay[i..i + |needle|];
    assert OccursAt(needle, whole, |prefix| + i);
  }

  /** Every part but the first and the last stands between two separators
      in the joined string. */
  lemma {:induction false} JoinedLine(parts: seq<string>, sep: char, k: int)
    requires 0 < k < |parts| - 1
    ensures Occurs([sep] + parts[k] + [sep], Join(parts, sep))
    decreases k
  {
    var rest := parts[1..];
    assert Join(parts, sep) == parts[0] + [sep] + Join(rest, sep);
    if k == 1 {
      assert Join(rest, sep) == parts[1] + [sep] + Join(rest[1..], sep);
      assert Join(parts, sep) == parts[0] + ([sep] + parts[1] + [sep]) + Join(rest[1..], sep);
      OccursBetween(parts[0], [sep] + parts[1] + [sep], Join(rest[1..], sep));
    } else {
      JoinedLine(rest, sep, k - 1);
      assert rest[k - 1] == parts[k];
      OccursExtend([sep] + parts[k] + [sep], parts[0] + [sep], Join(rest, sep));
    }
  }
}
