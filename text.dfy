/** String operations shared by the JavaScript and Python code: trimming by a
    character class, deleting the characters outside a class, and splitting
    and joining on a separator. */
module Text {

  /** `s` neither starts nor ends with a character of `ws`. */
  predicate Stripped(s: string, ws: char -> bool) {
    s == [] || (!ws(s[0]) && !ws(s[|s| - 1]))
  }

  /** Removes the leading characters of class `ws`. */
  function TrimStart(s: string, ws: char -> bool): (r: string)
    ensures |r| <= |s| && r == s[|s| - |r|..]
    ensures r == [] || !ws(r[0])
    ensures forall c :: c in s[..|s| - |r|] ==> ws(c)
  {
    if |s| > 0 && ws(s[0]) then
      var r := TrimStart(s[1..], ws);
      assert s[..|s| - |r|] == [s[0]] + s[1..][..|s| - 1 - |r|];
      r
    else
      s
  }

  /** Removes the trailing characters of class `ws`. */
  function TrimEnd(s: string, ws: char -> bool): (r: string)
    ensures |r| <= |s| && r == s[..|r|]
    ensures r == [] || !ws(r[|r| - 1])
    ensures forall c :: c in s[|r|..] ==> ws(c)
  {
    if |s| > 0 && ws(s[|s| - 1]) then
      var r := TrimEnd(s[..|s| - 1], ws);
      assert s[|r|..] == s[..|s| - 1][|r|..] + [s[|s| - 1]];
      r
    else
      s
  }

  /** `trim()` in JavaScript, `strip()` in Python, for the language's class
      `ws`: the slice of `s` left after removing the characters of `ws` at
      both ends. */
  function Trim(s: string, ws: char -> bool): (r: string)
    ensures exists i, j ::
              && 0 <= i <= j <= |s| && r == s[i..j]
              && (forall c :: c in s[..i] ==> ws(c))
              && (forall c :: c in s[j..] ==> ws(c))
    ensures Stripped(r, ws)
    ensures |r| <= |s|
    ensures Stripped(s, ws) ==> r == s
  {
    var t := TrimStart(s, ws);
    var r := TrimEnd(t, ws);
    var i := |s| - |t|;
    assert r == s[i..i + |r|] && s[i + |r|..] == t[|r|..];
    assert r != [] ==> r[0] == t[0];
    assert Stripped(s, ws) ==> |t| == |s| && (|s| > 0 ==> !ws(t[|t| - 1]));
    r
  }

  /** Trimming never introduces a character: every character of the result
      occurs in the input. */
  lemma TrimChars(s: string, ws: char -> bool)
    ensures forall c :: c in Trim(s, ws) ==> c in s
  {
    var i, j :| 0 <= i <= j <= |s| && Trim(s, ws) == s[i..j];
    assert forall c :: c in s[i..j] ==> c in s;
  }

  /** The characters of `s` in class `keep`, in order: `s.replace(/\D/g, '')`
      in JavaScript and `re.sub(r'\D', '', s)` in Python when `keep` is the
      language's digit class. */
  function Keep(s: string, keep: char -> bool): (r: string)
    ensures |r| <= |s|
    ensures forall c :: c in r <==> c in s && keep(c)
  {
    if s == [] then [] else (if keep(s[0]) then [s[0]] else []) + Keep(s[1..], keep)
  }

  lemma {:induction false} KeepAppend(a: string, b: string, keep: char -> bool)
    ensures Keep(a + b, keep) == Keep(a, keep) + Keep(b, keep)
  {
    if a == [] {
      assert a + b == b;
    } else {
      assert (a + b)[0] == a[0];
      assert (a + b)[1..] == a[1..] + b;
      KeepAppend(a[1..], b, keep);
    }
  }

  /** Inserting a character outside the class does not change what is kept. */
  lemma KeepIgnoresOthers(a: string, c: char, b: string, keep: char -> bool)
    requires !keep(c)
    ensures Keep(a + [c] + b, keep) == Keep(a + b, keep)
  {
    KeepAppend(a + [c], b, keep);
    KeepAppend(a, [c], keep);
    KeepAppend(a, b, keep);
  }

  /** Trimming removes only characters of `ws`; if those are never kept,
      trimming keeps exactly what the untrimmed string keeps. */
  lemma KeepTrim(s: string, ws: char -> bool, keep: char -> bool)
    ensures |Keep(Trim(s, ws), keep)| <= |Keep(s, keep)|
    ensures (forall c :: ws(c) ==> !keep(c)) ==> Keep(Trim(s, ws), keep) == Keep(s, keep)
  {
    var t := TrimStart(s, ws);
    KeepTrimStart(s, ws, keep);
    KeepTrimEnd(t, ws, keep);
  }

  lemma {:induction false} KeepTrimStart(s: string, ws: char -> bool, keep: char -> bool)
    ensures |Keep(TrimStart(s, ws), keep)| <= |Keep(s, keep)|
    ensures (forall c :: ws(c) ==> !keep(c)) ==> Keep(TrimStart(s, ws), keep) == Keep(s, keep)
  {
    if |s| > 0 && ws(s[0]) {
      KeepTrimStart(s[1..], ws, keep);
    }
  }

  lemma {:induction false} KeepTrimEnd(s: string, ws: char -> bool, keep: char -> bool)
    ensures |Keep(TrimEnd(s, ws), keep)| <= |Keep(s, keep)|
    ensures (forall c :: ws(c) ==> !keep(c)) ==> Keep(TrimEnd(s, ws), keep) == Keep(s, keep)
  {
    if |s| > 0 && ws(s[|s| - 1]) {
      var front := s[..|s| - 1];
      KeepTrimEnd(front, ws, keep);
      assert s == front + [s[|s| - 1]];
      KeepAppend(front, [s[|s| - 1]], keep);
    }
  }

  /** A wider class keeps at least as many characters. */
  lemma {:induction false} KeepWider(s: string, narrow: char -> bool, wide: char -> bool)
    requires forall c :: narrow(c) ==> wide(c)
    ensures |Keep(s, narrow)| <= |Keep(s, wide)|
  {
    if s != [] {
      KeepWider(s[1..], narrow, wide);
    }
  }

  /** Python's `s.split(sep)` for a one-character separator: the pieces between
      occurrences of `sep`, always at least one. */
  function Split(s: string, sep: char): (r: seq<string>)
    ensures |r| == Count(s, sep) + 1
    ensures forall k :: 0 <= k < |r| ==> sep !in r[k]
  {
    if s == [] then [[]]
    else if s[0] == sep then [[]] + Split(s[1..], sep)
    else
      var t := Split(s[1..], sep);
      [[s[0]] + t[0]] + t[1..]
  }

  /** Number of occurrences of `c` in `s`. */
  function Count(s: string, c: char): nat {
    if s == [] then 0 else (if s[0] == c then 1 else 0) + Count(s[1..], c)
  }

  /** Python's `sep.join(parts)`. */
  function Join(parts: seq<string>, sep: string): string {
    if parts == [] then []
    else if |parts| == 1 then parts[0]
    else parts[0] + sep + Join(parts[1..], sep)
  }

  /** Splitting at a separator splits the list of pieces there. */
  lemma {:induction false} SplitAppend(a: string, b: string, sep: char)
    ensures Split(a + [sep] + b, sep) == Split(a, sep) + Split(b, sep)
  {
    if a != [] {
      assert (a + [sep] + b)[1..] == a[1..] + [sep] + b;
      SplitAppend(a[1..], b, sep);
    }
  }

  /** A string without the separator is one piece. */
  lemma {:induction false} SplitWithout(s: string, sep: char)
    requires sep !in s
    ensures Split(s, sep) == [s]
  {
    if s != [] {
      assert s[0] != sep;
      SplitWithout(s[1..], sep);
      assert [s[0]] + s[1..] == s;
    }
  }

  /** Joining the pieces with the separator restores the string. */
  lemma {:induction false} JoinSplit(s: string, sep: char)
    ensures Join(Split(s, sep), [sep]) == s
  {
    if s != [] {
      var t := Split(s[1..], sep);
      JoinSplit(s[1..], sep);
      if s[0] == sep {
        assert Split(s, sep) == [[]] + t;
        assert Join(Split(s, sep), [sep]) == [] + [sep] + Join(t, [sep]);
      } else {
        var r := Split(s, sep);
        assert r[1..] == t[1..];
        if |t| == 1 {
          assert Join(r, [sep]) == [s[0]] + t[0];
        } else {
          assert Join(t, [sep]) == t[0] + [sep] + Join(t[1..], [sep]);
          assert Join(r, [sep]) == [s[0]] + t[0] + [sep] + Join(t[1..], [sep]);
        }
      }
    }
  }
}
