/**
 * The Python string and POSIX path primitives that the collector relies on:
 * `str` ordering, `str.partition`, `str.replace` with a one-character pattern,
 * `str.endswith`, `os.path.join` and `os.path.splitext`.
 * Strings are sequences of Unicode scalar values; unlike Python's `str`, they
 * cannot hold lone surrogate code points (U+D800 to U+DFFF).
 */
module PyStr {

  /** Python's `a <= b` on `str`: lexicographic by code point, a proper prefix first. */
  predicate StrLe(a: string, b: string)
  {
    a == [] || (b != [] && (a[0] < b[0] || (a[0] == b[0] && StrLe(a[1..], b[1..]))))
  }

  lemma {:induction false} StrLeReflexive(a: string)
    ensures StrLe(a, a)
  {
    if a != [] {
      StrLeReflexive(a[1..]);
    }
  }

  lemma {:induction false} StrLeAntisymmetric(a: string, b: string)
    requires StrLe(a, b) && StrLe(b, a)
    ensures a == b
  {
    if a != [] {
      assert b != [] && a[0] == b[0];
      StrLeAntisymmetric(a[1..], b[1..]);
      assert a == [a[0]] + a[1..] && b == [b[0]] + b[1..];
    }
  }

  lemma {:induction false} StrLeTransitive(a: string, b: string, c: string)
    requires StrLe(a, b) && StrLe(b, c)
    ensures StrLe(a, c)
  {
    if a != [] && b != [] && c != [] && a[0] == b[0] && b[0] == c[0] {
      StrLeTransitive(a[1..], b[1..], c[1..]);
    }
  }

  lemma {:induction false} StrLeTotal(a: string, b: string)
    ensures StrLe(a, b) || StrLe(b, a)
  {
    if a != [] && b != [] && a[0] == b[0] {
      StrLeTotal(a[1..], b[1..]);
    }
  }

  /**
   * `s.partition(sep)` for a one-character separator: the text before the
   * first `sep`, the separator itself (or "" when absent), and the rest.
   */
  function Partition(s: string, sep: char): (string, string, string)
  {
    if s == [] then ("", "", "")
    else if s[0] == sep then ("", [sep], s[1..])
    else
      var rest := Partition(s[1..], sep);
      ([s[0]] + rest.0, rest.1, rest.2)
  }

  /** The three parts rebuild the string, and the first part holds no separator. */
  lemma {:induction false} PartitionSpec(s: string, sep: char)
    ensures sep in s ==> Partition(s, sep).1 == [sep] && s == Partition(s, sep).0 + [sep] + Partition(s, sep).2 && sep !in Partition(s, sep).0
    ensures sep !in s ==> Partition(s, sep) == (s, "", "")
  {
    if s != [] && s[0] != sep {
      PartitionSpec(s[1..], sep);
      assert s == [s[0]] + s[1..];
    }
  }

  /** Joining at a separator that does not occur on the left is undone by `Partition`. */
  lemma {:induction false} PartitionOfJoin(a: string, sep: char, b: string)
    requires sep !in a
    ensures Partition(a + [sep] + b, sep) == (a, [sep], b)
  {
    var s := a + [sep] + b;
    if a == [] {
      assert s == [sep] + b;
    } else {
      assert s[0] == a[0] && s[1..] == a[1..] + [sep] + b;
      PartitionOfJoin(a[1..], sep, b);
      assert a == [a[0]] + a[1..];
    }
  }

  /** Number of occurrences of `c` in `s`. */
  function Count(s: string, c: char): nat
  {
    if s == [] then 0 else (if s[0] == c then 1 else 0) + Count(s[1..], c)
  }

  /** `s` with every occurrence of `c` removed. */
  function Drop(s: string, c: char): string
  {
    if s == [] then [] else (if s[0] == c then [] else [s[0]]) + Drop(s[1..], c)
  }

  /** `s.endswith(c)` for a one-character suffix. */
  predicate EndsWith(s: string, c: char)
  {
    |s| > 0 && s[|s| - 1] == c
  }

  /** `s.replace(c, t)` for a one-character pattern: every occurrence of `c` becomes `t`. */
  function Replace(s: string, c: char, t: string): string
  {
    if s == [] then [] else (if s[0] == c then t else [s[0]]) + Replace(s[1..], c, t)
  }

  /**
   * A string without `c` is left as it is; a one-character replacement
   * changes exactly the positions that held `c`.
   */
  lemma {:induction false} ReplaceSpec(s: string, c: char, t: string)
    ensures c !in s ==> Replace(s, c, t) == s
    ensures |t| == 1 ==> |Replace(s, c, t)| == |s|
    ensures |t| == 1 ==> forall i :: 0 <= i < |s| ==> Replace(s, c, t)[i] == if s[i] == c then t[0] else s[i]
  {
    if s != [] {
      ReplaceSpec(s[1..], c, t);
      assert s == [s[0]] + s[1..];
      if |t| == 1 {
        forall i | 0 < i < |s|
          ensures Replace(s, c, t)[i] == if s[i] == c then t[0] else s[i]
        {
          assert Replace(s, c, t)[i] == Replace(s[1..], c, t)[i - 1];
        }
      }
    }
  }

  /** Replacing works piecewise: the rewrite of a concatenation is the concatenation of rewrites. */
  lemma {:induction false} ReplaceConcat(a: string, b: string, c: char, t: string)
    ensures Replace(a + b, c, t) == Replace(a, c, t) + Replace(b, c, t)
  {
    if a != [] {
      assert (a + b)[0] == a[0] && (a + b)[1..] == a[1..] + b;
      ReplaceConcat(a[1..], b, c, t);
    } else {
      assert a + b == b;
    }
  }

  /** The last character of a string survives a rewrite of any other character into a text ending in that character. */
  lemma {:induction false} ReplaceKeepsLast(s: string, c: char, t: string)
    requires s != [] && s[|s| - 1] != c
    ensures EndsWith(Replace(s, c, t), s[|s| - 1])
  {
    var n := |s|;
    assert s == s[..n - 1] + [s[n - 1]];
    ReplaceConcat(s[..n - 1], [s[n - 1]], c, t);
    assert Replace([s[n - 1]], c, t) == [s[n - 1]] + Replace([], c, t);
  }

  /**
   * Rewriting every `[` into `/[` only inserts slashes, one per bracket, and
   * leaves each bracket directly after a slash.
   */
  lemma {:induction false} SlashBeforeBrackets(s: string)
    ensures |Replace(s, '[', "/[")| == |s| + Count(s, '[')
    ensures Count(Replace(s, '[', "/["), '[') == Count(s, '[')
    ensures Drop(Replace(s, '[', "/["), '/') == Drop(s, '/')
    ensures forall i :: 0 <= i < |Replace(s, '[', "/[")| && Replace(s, '[', "/[")[i] == '[' ==>
              0 < i && Replace(s, '[', "/[")[i - 1] == '/'
  {
    if s != [] {
      var rest := Replace(s[1..], '[', "/[");
      SlashBeforeBrackets(s[1..]);
      var head: string := if s[0] == '[' then "/[" else [s[0]];
      var r := head + rest;
      assert r == Replace(s, '[', "/[");
      DropConcat(head, rest, '/');
      CountConcat(head, rest, '[');
      forall i | 0 <= i < |r| && r[i] == '['
        ensures 0 < i && r[i - 1] == '/'
      {
        if i >= |head| {
          assert rest[i - |head|] == '[';
        }
      }
    }
  }

  /** `s` with the `/` directly before each `[` removed: the inverse of rewriting `[` into `/[`. */
  function Unslash(s: string): string
  {
    if s == [] then []
    else if |s| >= 2 && s[0] == '/' && s[1] == '[' then "[" + Unslash(s[2..])
    else [s[0]] + Unslash(s[1..])
  }

  /** Removing the slash before each bracket undoes the `[` to `/[` rewrite, so the rewrite changes nothing else. */
  lemma {:induction false} UnslashUndoesSlashBrackets(s: string)
    ensures Unslash(Replace(s, '[', "/[")) == s
  {
    if s != [] {
      var rest := Replace(s[1..], '[', "/[");
      UnslashUndoesSlashBrackets(s[1..]);
      if s[0] == '[' {
        var r := "/[" + rest;
        assert r == Replace(s, '[', "/[");
        assert r[2..] == rest;
      } else {
        var r := [s[0]] + rest;
        assert r == Replace(s, '[', "/[");
        assert r[1..] == rest;
        if rest != [] {
          // a rewritten string never starts with a bracket
          assert s[1..] != [];
          assert rest[0] == if s[1] == '[' then '/' else s[1];
        }
      }
      assert s == [s[0]] + s[1..];
    }
  }

  lemma {:induction false} DropConcat(a: string, b: string, c: char)
    ensures Drop(a + b, c) == Drop(a, c) + Drop(b, c)
  {
    if a != [] {
      assert (a + b)[0] == a[0] && (a + b)[1..] == a[1..] + b;
      DropConcat(a[1..], b, c);
    } else {
      assert a + b == b;
    }
  }

  lemma {:induction false} CountConcat(a: string, b: string, c: char)
    ensures Count(a + b, c) == Count(a, c) + Count(b, c)
  {
    if a != [] {
      assert (a + b)[0] == a[0] && (a + b)[1..] == a[1..] + b;
      CountConcat(a[1..], b, c);
    } else {
      assert a + b == b;
    }
  }

  /** `os.path.join(a, b)` on POSIX: an absolute `b` replaces `a`; otherwise one `/` separates them. */
  function JoinPath(a: string, b: string): string
  {
    if b != [] && b[0] == '/' then b
    else if a == [] || EndsWith(a, '/') then a + b
    else a + "/" + b
  }

  /**
   * The joined path ends with `b`; an absolute `b` is returned as it is; a
   * relative `b` is appended to `a`.
   */
  lemma JoinPathSpec(a: string, b: string)
    ensures |b| <= |JoinPath(a, b)| && JoinPath(a, b)[|JoinPath(a, b)| - |b|..] == b
    ensures b != [] && b[0] == '/' ==> JoinPath(a, b) == b
    ensures (b == [] || b[0] != '/') ==> a <= JoinPath(a, b)
  {
  }

  /** Index of the last `c` in `s`, or -1 (Python's `s.rfind(c)`). */
  function RFind(s: string, c: char): (r: int)
    ensures -1 <= r < |s|
    ensures r == -1 ==> c !in s
    ensures 0 <= r ==> s[r] == c && c !in s[r + 1..]
  {
    if s == [] then -1
    else if s[|s| - 1] == c then |s| - 1
    else
      var r := RFind(s[..|s| - 1], c);
      assert s == s[..|s| - 1] + [s[|s| - 1]];
      r
  }

  /**
   * `os.path.splitext(p)[0]` on POSIX: `p` without its extension, the text
   * from the last `.` of the last path component on, unless that component
   * is nothing but dots before it (a hidden file such as `.profile`).
   */
  function SplitExtRoot(p: string): (r: string)
    ensures r <= p
    ensures r != p ==> p[|r|] == '.' && '/' !in p[|r|..] && '.' !in p[|r| + 1..]
    ensures r != p ==> exists i :: RFind(p, '/') < i < |r| && p[i] != '.'
    ensures r == p ==> forall d :: RFind(p, '/') < d < |p| && p[d] == '.' ==>
              forall i :: RFind(p, '/') < i < d ==> p[i] == '.'
  {
    var sepIndex := RFind(p, '/');
    var dotIndex := RFind(p, '.');
    if dotIndex > sepIndex && exists i :: sepIndex + 1 <= i < dotIndex && p[i] != '.' then
      assert p[dotIndex..] == [p[dotIndex]] + p[dotIndex + 1..];
      p[..dotIndex]
    else p
  }
}
