/** ASCII models of the functions of Go's `strings` package that the
    converter calls. A Go string is a sequence of bytes; here it is a
    `string` in which each character stands for one byte, which is exact
    for ASCII text. */
module GoStrings {

  predicate IsAsciiUpper(c: char) { 'A' <= c <= 'Z' }
  predicate IsAsciiLower(c: char) { 'a' <= c <= 'z' }
  predicate IsAsciiDigit(c: char) { '0' <= c <= '9' }
  predicate IsAsciiLetter(c: char) { IsAsciiUpper(c) || IsAsciiLower(c) }

  /** The bytes that `strings.TrimSpace` removes from ASCII text. */
  const AsciiSpaces: set<char> := {' ', '\t', '\n', '\U{000B}', '\U{000C}', '\r'}

  function LowerChar(c: char): char
  {
    if IsAsciiUpper(c) then (c as int + 32) as char else c
  }

  function UpperChar(c: char): char
  {
    if IsAsciiLower(c) then (c as int - 32) as char else c
  }

  /** strings.ToLower */
  function Lower(s: string): (r: string)
    ensures |r| == |s|
    ensures forall i :: 0 <= i < |s| ==> r[i] == LowerChar(s[i])
  {
    seq(|s|, i requires 0 <= i < |s| => LowerChar(s[i]))
  }

  /** strings.TrimLeft(s, cutset) */
  function TrimLeft(s: string, cut: set<char>): (r: string)
    ensures |r| <= |s| && r == s[|s| - |r|..]
    ensures r == [] || r[0] !in cut
    ensures forall i :: 0 <= i < |s| - |r| ==> s[i] in cut
    decreases |s|
  {
    if s != [] && s[0] in cut then
      var r := TrimLeft(s[1..], cut);
      assert s[1..][|s| - 1 - |r|..] == s[|s| - |r|..];
      assert forall i :: 0 <= i < |s| - |r| ==> s[i] in cut by {
        forall i | 0 <= i < |s| - |r|
          ensures s[i] in cut
        {
          if i > 0 { assert s[i] == s[1..][i - 1]; }
        }
      }
      r
    else s
  }

  /** strings.TrimRight(s, cutset) */
  function TrimRight(s: string, cut: set<char>): (r: string)
    ensures |r| <= |s| && r == s[..|r|]
    ensures r == [] || r[|r| - 1] !in cut
    ensures forall i :: |r| <= i < |s| ==> s[i] in cut
    decreases |s|
  {
    if s != [] && s[|s| - 1] in cut then
      var r := TrimRight(s[..|s| - 1], cut);
      assert s[..|s| - 1][..|r|] == s[..|r|];
      r
    else s
  }

  /** strings.Trim(s, cutset): the slice of s left when every leading and
      trailing character in the cut set is removed. */
  function Trim(s: string, cut: set<char>): (r: string)
    ensures r == [] || (r[0] !in cut && r[|r| - 1] !in cut)
    ensures var lo := |s| - |TrimLeft(s, cut)|; lo + |r| <= |s| && r == s[lo..lo + |r|]
  {
    var left := TrimLeft(s, cut);
    var right := TrimRight(left, cut);
    assert var lo := |s| - |left|; lo + |right| <= |s| && right == s[lo..lo + |right|] by {
      SliceOfSuffix(s, left, right);
    }
    right
  }

  /** A prefix of a suffix of s is a slice of s. */
  lemma SliceOfSuffix(s: string, left: string, right: string)
    requires |left| <= |s| && left == s[|s| - |left|..]
    requires |right| <= |left| && right == left[..|right|]
    ensures var lo := |s| - |left|; lo + |right| <= |s| && right == s[lo..lo + |right|]
  {
  }

  /** strings.TrimSpace */
  function TrimSpace(s: string): string
  {
    Trim(s, AsciiSpaces)
  }

  /** Trimming a second time changes nothing. */
  lemma TrimIdempotent(s: string, cut: set<char>)
    ensures Trim(Trim(s, cut), cut) == Trim(s, cut)
  {
    var t := Trim(s, cut);
    if t != [] {
      assert TrimLeft(t, cut) == t;
      assert TrimRight(t, cut) == t;
    }
  }

  /** A string that neither starts nor ends with a cut character is left
      as it is. */
  lemma TrimKeepsTrimmed(s: string, cut: set<char>)
    requires s == [] || (s[0] !in cut && s[|s| - 1] !in cut)
    ensures Trim(s, cut) == s
  {
    if s != [] {
      assert TrimLeft(s, cut) == s;
      assert TrimRight(s, cut) == s;
    }
  }

  /** A string made only of characters from the cut set trims to "". */
  lemma TrimAllCut(s: string, cut: set<char>)
    requires forall i :: 0 <= i < |s| ==> s[i] in cut
    ensures Trim(s, cut) == []
  {
  }

  /** strings.ReplaceAll(s, string(a), string(b)) for one-byte a and b */
  function ReplaceChar(s: string, a: char, b: char): (r: string)
    ensures |r| == |s|
    ensures forall i :: 0 <= i < |s| ==> r[i] == if s[i] == a then b else s[i]
  {
    seq(|s|, i requires 0 <= i < |s| => if s[i] == a then b else s[i])
  }

  /** strings.ReplaceAll(s, string(c), ""): s with every c dropped and the
      other characters kept in order. */
  function RemoveChar(s: string, c: char): (r: string)
    ensures c !in r
    ensures forall x :: x in r ==> x in s
    ensures c !in s ==> r == s
    decreases |s|
  {
    if s == [] then [] else (if s[0] == c then [] else [s[0]]) + RemoveChar(s[1..], c)
  }

  /** One step of RemoveChar. */
  lemma RemoveCharCons(x: char, t: string, c: char)
    ensures RemoveChar([x] + t, c) == (if x == c then [] else [x]) + RemoveChar(t, c)
  {
    assert ([x] + t)[0] == x && ([x] + t)[1..] == t;
  }

  /** Removing a character from a concatenation removes it from each part. */
  lemma {:induction false} RemoveCharAppend(u: string, v: string, c: char)
    ensures RemoveChar(u + v, c) == RemoveChar(u, c) + RemoveChar(v, c)
    decreases |u|
  {
    if u == [] {
      assert u + v == v;
    } else {
      var head := if u[0] == c then [] else [u[0]];
      var tail, rest := RemoveChar(u[1..], c), RemoveChar(v, c);
      assert RemoveChar(u + v, c) == head + (tail + rest) by {
        assert u + v == [u[0]] + (u[1..] + v);
        RemoveCharCons(u[0], u[1..] + v, c);
        RemoveCharAppend(u[1..], v, c);
      }
      assert RemoveChar(u, c) == head + tail by {
        assert u == [u[0]] + u[1..];
        RemoveCharCons(u[0], u[1..], c);
      }
      AppendAssociates(head, tail, rest);
    }
  }

  lemma AppendAssociates(a: string, b: string, c: string)
    ensures a + (b + c) == (a + b) + c
  {
  }

  /** Removing the only c from s == u + [c] + w gives u + w. */
  lemma RemoveOnlyChar(s: string, u: string, w: string, c: char)
    requires s == u + [c] + w && c !in u && c !in w
    ensures RemoveChar(s, c) == u + w
  {
    RemoveCharAppend(u + [c], w, c);
    RemoveCharAppend(u, [c], c);
  }

  /** strings.ReplaceAll(s, pat, rep) for a non-empty pat: the occurrences
      of pat met scanning from the left, never overlapping, each replaced
      by rep. */
  function ReplaceAll(s: string, pat: string, rep: string): string
    requires pat != []
    decreases |s|
  {
    if s == [] then []
    else if |pat| <= |s| && s[..|pat|] == pat then rep + ReplaceAll(s[|pat|..], pat, rep)
    else [s[0]] + ReplaceAll(s[1..], pat, rep)
  }

  /** ReplaceChar is ReplaceAll of one character by another. */
  lemma {:induction false} ReplaceCharIsReplaceAll(s: string, a: char, b: char)
    ensures ReplaceChar(s, a, b) == ReplaceAll(s, [a], [b])
    decreases |s|
  {
    if s != [] {
      ReplaceCharIsReplaceAll(s[1..], a, b);
      assert ReplaceChar(s, a, b) == [ReplaceChar(s, a, b)[0]] + ReplaceChar(s[1..], a, b);
    }
  }

  /** RemoveChar is ReplaceAll of one character by nothing. */
  lemma {:induction false} RemoveCharIsReplaceAll(s: string, c: char)
    ensures RemoveChar(s, c) == ReplaceAll(s, [c], [])
    decreases |s|
  {
    if s != [] {
      RemoveCharIsReplaceAll(s[1..], c);
      var rest := ReplaceAll(s[1..], [c], []);
      if s[0] == c {
        assert s[..1] == [c];
        assert ReplaceAll(s, [c], []) == [] + rest;
      } else {
        assert s[..1] != [c];
        assert ReplaceAll(s, [c], []) == [s[0]] + rest;
      }
    }
  }

  /** t occurs in s at offset i. */
  predicate MatchAt(s: string, t: string, i: int)
  {
    0 <= i && i + |t| <= |s| && s[i..i + |t|] == t
  }

  /** strings.Contains(s, t) */
  predicate Contains(s: string, t: string)
  {
    exists i | 0 <= i <= |s| - |t| :: MatchAt(s, t, i)
  }

  /** strings.HasPrefix(s, p) */
  predicate HasPrefix(s: string, p: string)
  {
    |p| <= |s| && s[..|p|] == p
  }

  /** strings.LastIndex(s, string(c)): the position of the last c, or -1. */
  function LastIndex(s: string, c: char): (r: int)
    ensures -1 <= r < |s|
    ensures r == -1 <==> c !in s
    ensures r >= 0 ==> s[r] == c && c !in s[r + 1..]
    decreases |s|
  {
    if s == [] then -1
    else if s[|s| - 1] == c then |s| - 1
    else
      var init := s[..|s| - 1];
      assert s == init + [s[|s| - 1]];
      var r := LastIndex(init, c);
      assert r >= 0 ==> s[r + 1..] == init[r + 1..] + [s[|s| - 1]];
      r
  }

  /** strings.Split(s, string(sep)): the pieces between the separators,
      always at least one (Split("", sep) is [""]). */
  function Split(s: string, sep: char): (parts: seq<string>)
    ensures |parts| >= 1
    decreases |s|
  {
    if s == [] then [[]]
    else
      var rest := Split(s[1..], sep);
      if s[0] == sep then [[]] + rest else [[s[0]] + rest[0]] + rest[1..]
  }

  /** strings.Join(parts, string(sep)) */
  function Join(parts: seq<string>, sep: char): string
    decreases |parts|
  {
    if parts == [] then []
    else if |parts| == 1 then parts[0]
    else parts[0] + [sep] + Join(parts[1..], sep)
  }

  /** Joining a piece in front of at least one more piece puts a separator
      between them. */
  lemma JoinCons(x: string, rest: seq<string>, sep: char)
    requires |rest| >= 1
    ensures Join([x] + rest, sep) == x + [sep] + Join(rest, sep)
  {
    var parts := [x] + rest;
    assert parts[0] == x && parts[1..] == rest;
  }

  /** Prefixing the first piece prefixes the join. */
  lemma JoinExtendsHead(a: string, rest: seq<string>, sep: char)
    requires |rest| >= 1
    ensures Join([a + rest[0]] + rest[1..], sep) == a + Join(rest, sep)
  {
    var parts := [a + rest[0]] + rest[1..];
    if |rest| == 1 {
      assert parts == [a + rest[0]];
    } else {
      assert rest == [rest[0]] + rest[1..];
      JoinCons(rest[0], rest[1..], sep);
      JoinCons(a + rest[0], rest[1..], sep);
      assert (a + rest[0]) + [sep] + Join(rest[1..], sep) == a + (rest[0] + [sep] + Join(rest[1..], sep));
    }
  }

  /** Joining the pieces of a split gives back the string. */
  lemma {:induction false} JoinSplit(s: string, sep: char)
    ensures Join(Split(s, sep), sep) == s
    decreases |s|
  {
    if s != [] {
      var rest := Split(s[1..], sep);
      JoinSplit(s[1..], sep);
      assert s == [s[0]] + s[1..];
      if s[0] == sep {
        assert Split(s, sep) == [[]] + rest;
        JoinCons([], rest, sep);
      } else {
        assert Split(s, sep) == [[s[0]] + rest[0]] + rest[1..];
        JoinExtendsHead([s[0]], rest, sep);
      }
    }
  }

  /** Splitting a piece that holds no separator gives just that piece. */
  lemma {:induction false} SplitSingle(p: string, sep: char)
    requires sep !in p
    ensures Split(p, sep) == [p]
    decreases |p|
  {
    if p != [] {
      SplitSingle(p[1..], sep);
      assert [p[0]] + p[1..] == p;
    }
  }

  /** A separator-free head splits off as the first piece. */
  lemma {:induction false} SplitAfterHead(a: string, b: string, sep: char)
    requires sep !in a
    ensures Split(a + [sep] + b, sep) == [a] + Split(b, sep)
    decreases |a|
  {
    var s := a + [sep] + b;
    if a == [] {
      assert s[1..] == b;
    } else {
      assert s[1..] == a[1..] + [sep] + b;
      SplitAfterHead(a[1..], b, sep);
      assert [a[0]] + a[1..] == a;
    }
  }

  /** Splitting a join of separator-free pieces gives back the pieces. */
  lemma {:induction false} SplitJoin(parts: seq<string>, sep: char)
    requires |parts| >= 1
    requires forall p :: p in parts ==> sep !in p
    ensures Split(Join(parts, sep), sep) == parts
    decreases |parts|
  {
    if |parts| == 1 {
      SplitSingle(parts[0], sep);
    } else {
      SplitJoin(parts[1..], sep);
      SplitAfterHead(parts[0], Join(parts[1..], sep), sep);
      assert [parts[0]] + parts[1..] == parts;
    }
  }

  /** Characters that start a new word for strings.Title on ASCII text:
      everything except letters, digits and '_'. */
  predicate IsTitleSeparator(c: char)
  {
    !(IsAsciiLetter(c) || IsAsciiDigit(c) || c == '_')
  }

  /** strings.Title, scanning s with `prev` as the character before it. */
  function TitleAfter(prev: char, s: string): (r: string)
    ensures |r| == |s|
    decreases |s|
  {
    if s == [] then []
    else [if IsTitleSeparator(prev) then UpperChar(s[0]) else s[0]] + TitleAfter(s[0], s[1..])
  }

  lemma {:induction false} TitleAfterAt(prev: char, s: string, k: int)
    requires 0 <= k < |s|
    ensures TitleAfter(prev, s)[k] ==
      if IsTitleSeparator(if k == 0 then prev else s[k - 1]) then UpperChar(s[k]) else s[k]
    decreases |s|
  {
    if k > 0 {
      TitleAfterAt(s[0], s[1..], k - 1);
    }
  }

  /** strings.Title: every letter at the start of s or after a separator is
      upper-cased; every other character is left as it is. */
  function Title(s: string): (r: string)
    ensures |r| == |s|
    ensures forall k :: 0 <= k < |s| ==>
      r[k] == if k == 0 || IsTitleSeparator(s[k - 1]) then UpperChar(s[k]) else s[k]
  {
    forall k | 0 <= k < |s|
      ensures TitleAfter(' ', s)[k] ==
        if k == 0 || IsTitleSeparator(s[k - 1]) then UpperChar(s[k]) else s[k]
    {
      TitleAfterAt(' ', s, k);
    }
    TitleAfter(' ', s)
  }
}

/** The parts of Go's `path/filepath` package that the converter uses, on a
    system whose one path separator is the parameter `sep`. */
module FilePath {
  import opened GoStrings

  /** filepath.Base: the last element of path, trailing separators ignored;
      "." for the empty path and the separator for a path of separators. */
  function Base(path: string, sep: char): (r: string)
    ensures path != [] ==> r != []
  {
    if path == [] then "."
    else
      var t := TrimRight(path, {sep});
      if t == [] then [sep] else t[LastIndex(t, sep) + 1..]
  }

  /** The base of dir/name is name. */
  lemma BaseOfChild(dir: string, name: string, sep: char)
    requires name != [] && sep !in name
    ensures Base(dir + [sep] + name, sep) == name
  {
    var path := dir + [sep] + name;
    assert path[|path| - 1] == name[|name| - 1];
    assert TrimRight(path, {sep}) == path;
    var i := LastIndex(path, sep);
    assert path[|dir|] == sep;
    assert i == |dir|;
    assert path[|dir| + 1..] == name;
  }

  /** The elements of elems that are not "". */
  function NonEmpty(elems: seq<string>): (r: seq<string>)
    ensures forall e :: e in r ==> e != [] && e in elems
    decreases |elems|
  {
    if elems == [] then []
    else (if elems[0] == [] then [] else [elems[0]]) + NonEmpty(elems[1..])
  }

  /** filepath.Join without its final filepath.Clean: the non-empty elements
      joined by the separator. */
  function JoinPath(elems: seq<string>, sep: char): string
  {
    Join(NonEmpty(elems), sep)
  }

  /** Three non-empty elements are joined with a separator between each. */
  lemma JoinPathOfThree(a: string, b: string, c: string, sep: char)
    requires b != [] && c != []
    ensures a != [] ==> JoinPath([a, b, c], sep) == a + [sep] + b + [sep] + c
  {
    if a != [] {
      assert [a, b, c][1..] == [b, c];
      assert [b, c][1..] == [c];
      assert NonEmpty([c]) == [c];
      assert NonEmpty([b, c]) == [b, c];
      assert NonEmpty([a, b, c]) == [a, b, c];
      assert Join([b, c], sep) == b + [sep] + c;
    }
  }
}
