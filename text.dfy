/** The small pieces of Java string behaviour that the services rely on:
    `Option`, blank tests, `trim`, ASCII case mapping, `equalsIgnoreCase`,
    `String.split(",")` with its removal of trailing empty fields, and
    `List.remove(Object)`, which drops only the first occurrence. */
module Text {

  datatype Option<+T> = None | Some(value: T)

  /** `Character.isWhitespace` restricted to the ASCII and C0 range. */
  predicate IsWhitespace(c: char) {
    c == ' ' || c == '\t' || c == '\n' || c == '\U{000B}' || c == '\U{000C}' || c == '\r'
    || ('\U{001C}' <= c <= '\U{001F}')
  }

  /** `String.isBlank`: empty or made only of white space. */
  predicate IsBlank(s: string) {
    forall i :: 0 <= i < |s| ==> IsWhitespace(s[i])
  }

  /** `String.trim` drops every leading and trailing character up to U+0020. */
  function TrimStart(s: string): (r: string)
    ensures |r| <= |s| && r == s[|s| - |r|..]
    ensures |r| > 0 ==> r[0] > ' '
    ensures forall i :: 0 <= i < |s| - |r| ==> s[i] <= ' '
  {
    if |s| > 0 && s[0] <= ' ' then TrimStart(s[1..]) else s
  }

  function TrimEnd(s: string): (r: string)
    ensures |r| <= |s| && r == s[..|r|]
    ensures |r| > 0 ==> r[|r| - 1] > ' '
    ensures forall i :: |r| <= i < |s| ==> s[i] <= ' '
  {
    if |s| > 0 && s[|s| - 1] <= ' ' then TrimEnd(s[..|s| - 1]) else s
  }

  function Trim(s: string): string {
    TrimEnd(TrimStart(s))
  }

  function LowerChar(c: char): char {
    if 'A' <= c <= 'Z' then (c as int + 32) as char else c
  }

  function UpperChar(c: char): char {
    if 'a' <= c <= 'z' then (c as int - 32) as char else c
  }

  /** `toLowerCase` on the ASCII letters. */
  function Lower(s: string): (r: string)
    ensures |r| == |s| && forall i :: 0 <= i < |s| ==> r[i] == LowerChar(s[i])
  {
    if s == [] then [] else [LowerChar(s[0])] + Lower(s[1..])
  }

  lemma LowerIdempotent(s: string)
    ensures Lower(Lower(s)) == Lower(s)
  {
    assert forall i :: 0 <= i < |s| ==> Lower(Lower(s))[i] == Lower(s)[i];
  }

  /** `toUpperCase` on the ASCII letters. */
  function Upper(s: string): (r: string)
    ensures |r| == |s| && forall i :: 0 <= i < |s| ==> r[i] == UpperChar(s[i])
  {
    if s == [] then [] else [UpperChar(s[0])] + Upper(s[1..])
  }

  /** `equalsIgnoreCase` on ASCII text: equal after case folding. */
  predicate EqualsIgnoreCase(a: string, b: string) {
    Lower(a) == Lower(b)
  }

  // The services also compare against constants ("VISITOR", "Waiter",
  // "Any Table") ignoring case; the model writes those comparisons as
  // `Lower(a) == c` with the constant already in lower case, which is the
  // same test for ASCII text.

  /** The fields written back with `sep` between them. */
  function Join(parts: seq<string>, sep: char): string {
    if |parts| == 0 then ""
    else if |parts| == 1 then parts[0]
    else parts[0] + [sep] + Join(parts[1..], sep)
  }

  /** Every field between occurrences of `sep`, empty ones included. */
  function SplitAll(s: string, sep: char): (parts: seq<string>)
    ensures |parts| >= 1
    ensures forall k :: 0 <= k < |parts| ==> sep !in parts[k]
    decreases |s|
  {
    if sep !in s then [s]
    else
      var i := IndexOf(s, sep);
      [s[..i]] + SplitAll(s[i + 1..], sep)
  }

  /** Joining the fields again gives the text back. */
  lemma {:induction false} SplitAllJoin(s: string, sep: char)
    ensures Join(SplitAll(s, sep), sep) == s
    decreases |s|
  {
    if sep in s {
      var i := IndexOf(s, sep);
      var rest := SplitAll(s[i + 1..], sep);
      SplitAllJoin(s[i + 1..], sep);
      assert ([s[..i]] + rest)[1..] == rest;
      assert s == s[..i] + [sep] + s[i + 1..];
    }
  }

  function IndexOf(s: string, c: char): (i: nat)
    requires c in s
    ensures i < |s| && s[i] == c && c !in s[..i]
  {
    if s[0] == c then 0 else 1 + IndexOf(s[1..], c)
  }

  function DropTrailingEmpty(parts: seq<string>): (r: seq<string>)
    ensures |r| <= |parts| && r == parts[..|r|]
    ensures |r| > 0 ==> r[|r| - 1] != ""
    ensures forall k :: |r| <= k < |parts| ==> parts[k] == ""
  {
    if |parts| > 0 && parts[|parts| - 1] == "" then DropTrailingEmpty(parts[..|parts| - 1]) else parts
  }

  /** `t` is `s` with only separators after it. */
  predicate SeparatorsAfter(t: string, s: string, sep: char) {
    |t| <= |s| && s[..|t|] == t && forall i :: |t| <= i < |s| ==> s[i] == sep
  }

  /** `String.split` on a one-character separator with limit 0: a string without
      the separator comes back whole (even ""), otherwise trailing empty fields go. */
  function JavaSplit(s: string, sep: char): (parts: seq<string>)
    ensures forall k :: 0 <= k < |parts| ==> sep !in parts[k]
    ensures sep !in s ==> parts == [s]
    ensures sep in s && |parts| > 0 ==> parts[|parts| - 1] != ""
  {
    if sep !in s then [s] else DropTrailingEmpty(SplitAll(s, sep))
  }

  /** With the separator present, the parts are the fields of `SplitAll` up to
      the last non-empty one; either way, joining them gives the text without
      its trailing separators. */
  lemma JavaSplitFields(s: string, sep: char)
    ensures var parts, all := JavaSplit(s, sep), SplitAll(s, sep);
      (sep in s ==>
         |parts| <= |all| && parts == all[..|parts|] && forall k :: |parts| <= k < |all| ==> all[k] == "") &&
      SeparatorsAfter(Join(parts, sep), s, sep)
  {
    SplitAllJoin(s, sep);
    if sep in s {
      JoinDropTrailingEmpty(SplitAll(s, sep), sep);
    }
  }

  lemma {:induction false} JoinSnoc(q: seq<string>, x: string, sep: char)
    ensures Join(q + [x], sep) == if q == [] then x else Join(q, sep) + [sep] + x
    decreases |q|
  {
    if |q| >= 2 {
      assert (q + [x])[1..] == q[1..] + [x];
      JoinSnoc(q[1..], x, sep);
    } else if |q| == 1 {
      assert (q + [x])[1..] == [x];
    }
  }

  /** Dropping trailing empty fields only drops trailing separators. */
  lemma {:induction false} JoinDropTrailingEmpty(p: seq<string>, sep: char)
    ensures SeparatorsAfter(Join(DropTrailingEmpty(p), sep), Join(p, sep), sep)
    decreases |p|
  {
    if |p| > 0 && p[|p| - 1] == "" {
      var q := p[..|p| - 1];
      assert p == q + [""];
      JoinSnoc(q, "", sep);
      JoinDropTrailingEmpty(q, sep);
      var t := Join(DropTrailingEmpty(q), sep);
      if q != [] {
        var u := Join(q, sep);
        assert Join(p, sep) == u + [sep];
        assert (u + [sep])[..|u|] == u;
        assert (u + [sep])[..|t|] == u[..|t|];
      }
    }
  }

  /** `List.remove(Object)`: the first occurrence of `x` goes, nothing else. */
  function RemoveFirst<T(==)>(s: seq<T>, x: T): (r: seq<T>)
    ensures x !in s ==> r == s
    ensures x in s ==> |r| == |s| - 1
  {
    if s == [] then []
    else if s[0] == x then s[1..]
    else [s[0]] + RemoveFirst(s[1..], x)
  }

  /** `List.remove(x)` takes exactly one `x` out of a list that holds one. */
  lemma {:induction false} RemoveFirstCounts<T>(s: seq<T>, x: T)
    requires x in s
    ensures multiset(RemoveFirst(s, x)) == multiset(s) - multiset{x}
  {
    assert s == [s[0]] + s[1..];
    if s[0] != x {
      RemoveFirstCounts(s[1..], x);
    }
  }

  /** `List.remove(y)` keeps every other element, and keeps `y` itself when it
      occurs twice. */
  lemma RemoveFirstKeeps<T>(s: seq<T>, x: T, y: T)
    requires x in s && (x != y || multiset(s)[x] >= 2)
    ensures x in RemoveFirst(s, y)
  {
    var r := RemoveFirst(s, y);
    if y in s {
      RemoveFirstCounts(s, y);
      assert multiset(r)[x] == multiset(s)[x] - (if x == y then 1 else 0);
    }
    assert x in multiset(r);
  }

  /** `list.contains(x)` for a list that is a view of a Java list of strings. */
  predicate AnyEqualsIgnoreCase(xs: seq<string>, x: string) {
    exists k :: 0 <= k < |xs| && EqualsIgnoreCase(xs[k], x)
  }

  /** Elements before the first occurrence stay in front, in order. */
  lemma {:induction false} RemoveFirstAppend<T>(a: seq<T>, b: seq<T>, x: T)
    requires x !in a
    ensures RemoveFirst(a + b, x) == a + RemoveFirst(b, x)
  {
    if a == [] {
      assert a + b == b;
    } else {
      var ab := a + b;
      assert ab[0] == a[0] && ab[1..] == a[1..] + b;
      RemoveFirstAppend(a[1..], b, x);
      assert a == [a[0]] + a[1..];
      assert RemoveFirst(ab, x) == [a[0]] + RemoveFirst(a[1..] + b, x);
      assert [a[0]] + (a[1..] + RemoveFirst(b, x)) == a + RemoveFirst(b, x);
    }
  }

  lemma RemoveFirstKeepsOrder<T>(s: seq<T>, x: T, k: nat)
    requires k <= |s| && x !in s[..k]
    ensures RemoveFirst(s, x) == s[..k] + RemoveFirst(s[k..], x)
  {
    assert s == s[..k] + s[k..];
    RemoveFirstAppend(s[..k], s[k..], x);
  }

  /** The first occurrence is the one with no earlier occurrence. */
  lemma IndexOfUnique(s: string, c: char, i: nat)
    requires i < |s| && s[i] == c && c !in s[..i]
    ensures IndexOf(s, c) == i
  {
  }

  /** Two separator-free fields joined by one separator split back into the
      two, when the second is not empty. */
  lemma SplitTwo(a: string, b: string, sep: char)
    requires sep !in a && sep !in b && b != ""
    ensures JavaSplit(a + [sep] + b, sep) == [a, b]
  {
    var s := a + [sep] + b;
    assert s[|a|] == sep && s[..|a|] == a && s[|a| + 1..] == b;
    IndexOfUnique(s, sep, |a|);
    assert SplitAll(s, sep) == [a] + SplitAll(b, sep);
  }

  /** Splitting after appending one separator adds one empty field at the end. */
  lemma {:induction false} SplitAllAppendSeparator(s: string, sep: char)
    ensures SplitAll(s + [sep], sep) == SplitAll(s, sep) + [""]
    decreases |s|
  {
    var t := s + [sep];
    if sep !in s {
      assert t[..|s|] == s;
      IndexOfUnique(t, sep, |s|);
      assert t[|s| + 1..] == [];
    } else {
      var i := IndexOf(s, sep);
      assert t[..i] == s[..i];
      IndexOfUnique(t, sep, i);
      assert t[i + 1..] == s[i + 1..] + [sep];
      SplitAllAppendSeparator(s[i + 1..], sep);
    }
  }

  /** A trailing separator does not add a field ("date,desc," has the two parts
      of "date,desc"), and a field followed by one separator splits into that
      field alone. */
  lemma TrailingSeparatorDropped(s: string, sep: char)
    ensures sep in s ==> JavaSplit(s + [sep], sep) == JavaSplit(s, sep)
    ensures sep !in s && s != "" ==> JavaSplit(s + [sep], sep) == [s]
  {
    SplitAllAppendSeparator(s, sep);
    var parts := SplitAll(s, sep);
    assert (s + [sep])[|s|] == sep;
    assert (parts + [""])[..|parts|] == parts;
    if sep !in s && s != "" {
      assert parts == [s];
      assert DropTrailingEmpty(parts + [""]) == DropTrailingEmpty([s]);
    }
  }

  /** A lone separator splits into nothing, the empty string into one empty field. */
  lemma SeparatorOnlySplits()
    ensures JavaSplit(",", ',') == []
    ensures JavaSplit("", ',') == [""]
  {
    assert ","[0] == ',';
    assert IndexOf(",", ',') == 0;
    assert SplitAll(",", ',') == ["", ""] by {
      assert ","[1..] == "" && ","[..0] == "";
    }
    assert DropTrailingEmpty(["", ""]) == DropTrailingEmpty([""]);
  }
}
