/**
  The three string operations of the Go standard library that the reconciler's
  decisions rest on: `strings.Split` with a one-character separator, the
  `strings.Join` it inverts, and `strings.Contains`.
 */
module GoStrings {

  /** `sub` occurs in `s` starting at index `i`. */
  predicate OccursAt(s: string, sub: string, i: int)
  {
    0 <= i && i + |sub| <= |s| && s[i..i + |sub|] == sub
  }

  /** `strings.Contains(s, sub)`: plain substring search. */
  predicate Contains(s: string, sub: string)
  {
    exists i :: 0 <= i <= |s| - |sub| && OccursAt(s, sub, i)
  }

  /** Number of occurrences of the character `c` in `s`. */
  function Count(s: string, c: char): nat
  {
    if |s| == 0 then 0 else (if s[0] == c then 1 else 0) + Count(s[1..], c)
  }

  /** `strings.Join(parts, string(sep))`. */
  function Join(parts: seq<string>, sep: char): string
  {
    if |parts| == 0 then ""
    else if |parts| == 1 then parts[0]
    else parts[0] + [sep] + Join(parts[1..], sep)
  }

  /**
    `strings.Split(s, string(sep))`: the pieces between the separators, so
    there is always at least one piece, and the empty string splits into one
    empty piece.
   */
  function Split(s: string, sep: char): (parts: seq<string>)
    ensures |parts| >= 1
    decreases |s|
  {
    if |s| == 0 then [""]
    else
      var rest := Split(s[1..], sep);
      if s[0] == sep then [""] + rest
      else [[s[0]] + rest[0]] + rest[1..]
  }

  /** Splitting yields one more piece than there are separators. */
  lemma {:induction false} SplitCount(s: string, sep: char)
    ensures |Split(s, sep)| == Count(s, sep) + 1
    decreases |s|
  {
    if |s| > 0 {
      SplitCount(s[1..], sep);
    }
  }

  /** No piece produced by splitting contains the separator. */
  lemma {:induction false} SplitPiecesFree(s: string, sep: char)
    ensures forall p :: p in Split(s, sep) ==> sep !in p
    decreases |s|
  {
    if |s| > 0 {
      SplitPiecesFree(s[1..], sep);
      var rest := Split(s[1..], sep);
      if s[0] != sep {
        forall p | p in Split(s, sep)
          ensures sep !in p
        {
          if p != [s[0]] + rest[0] {
            assert p in rest[1..];
          } else {
            assert rest[0] in rest;
          }
        }
      }
    }
  }

  /** Joining the pieces of a split with the same separator gives back the string. */
  lemma {:induction false} JoinSplit(s: string, sep: char)
    ensures Join(Split(s, sep), sep) == s
    decreases |s|
  {
    if |s| > 0 {
      JoinSplit(s[1..], sep);
      var rest := Split(s[1..], sep);
      if s[0] == sep {
        assert ([""] + rest)[1..] == rest;
        assert s == [sep] + s[1..];
      } else {
        var parts := [[s[0]] + rest[0]] + rest[1..];
        if |rest| == 1 {
          assert s == [s[0]] + s[1..];
        } else {
          assert parts[1..] == rest[1..];
          assert Join(rest, sep) == rest[0] + [sep] + Join(rest[1..], sep);
          assert s == [s[0]] + s[1..];
        }
      }
    }
  }

  /** Splitting a string that begins with a separator-free prefix `a`. */
  lemma {:induction false} SplitAfterFreePrefix(a: string, t: string, sep: char)
    requires sep !in a
    ensures Split(a + t, sep) == [a + Split(t, sep)[0]] + Split(t, sep)[1..]
    decreases |a|
  {
    if |a| > 0 {
      SplitAfterFreePrefix(a[1..], t, sep);
      assert (a + t)[1..] == a[1..] + t;
      assert a[0] != sep;
      var rest := Split(a[1..] + t, sep);
      assert Split(a + t, sep) == [[a[0]] + rest[0]] + rest[1..];
      assert rest[1..] == Split(t, sep)[1..];
      assert [a[0]] + rest[0] == [a[0]] + (a[1..] + Split(t, sep)[0]);
      assert a == [a[0]] + a[1..];
      assert a + Split(t, sep)[0] == [a[0]] + (a[1..] + Split(t, sep)[0]);
    } else {
      assert a == "" && a + t == t && a + Split(t, sep)[0] == Split(t, sep)[0];
      assert Split(t, sep) == [Split(t, sep)[0]] + Split(t, sep)[1..];
    }
  }

  /** Splitting undoes joining separator-free pieces. */
  lemma {:induction false} SplitJoin(parts: seq<string>, sep: char)
    requires |parts| >= 1
    requires forall p :: p in parts ==> sep !in p
    ensures Split(Join(parts, sep), sep) == parts
    decreases |parts|
  {
    if |parts| == 1 {
      SplitAfterFreePrefix(parts[0], "", sep);
      assert parts[0] + "" == parts[0];
    } else {
      var tail := Join(parts[1..], sep);
      assert forall p :: p in parts[1..] ==> p in parts;
      SplitJoin(parts[1..], sep);
      assert parts[0] + [sep] + tail == parts[0] + ([sep] + tail);
      SplitAfterFreePrefix(parts[0], [sep] + tail, sep);
      assert ([sep] + tail)[1..] == tail;
      assert Split([sep] + tail, sep) == [""] + parts[1..];
      assert parts[0] + "" == parts[0];
      assert parts == [parts[0]] + parts[1..];
    }
  }

  /** Every position covered by an occurrence of `sub` holds a character of `sub`. */
  lemma CoveredByOccurrence(s: string, sub: string, i: int, p: int)
    requires OccursAt(s, sub, i) && i <= p < i + |sub|
    ensures s[p] in sub
  {
    assert s[p] == sub[p - i];
  }

  /**
    An occurrence of a word that does not contain the character `c` cannot
    straddle `c`: it lies wholly on one side.
   */
  lemma ContainsAroundSeparator(a: string, c: char, b: string, sub: string)
    requires |sub| > 0 && c !in sub
    ensures Contains(a + [c] + b, sub) <==> Contains(a, sub) || Contains(b, sub)
  {
    var s := a + [c] + b;
    if Contains(a, sub) {
      var i: int :| 0 <= i <= |a| - |sub| && OccursAt(a, sub, i);
      assert s[i..i + |sub|] == a[i..i + |sub|];
      assert OccursAt(s, sub, i);
    }
    if Contains(b, sub) {
      var j: int :| 0 <= j <= |b| - |sub| && OccursAt(b, sub, j);
      var i := |a| + 1 + j;
      assert s[i..i + |sub|] == b[j..j + |sub|];
      assert OccursAt(s, sub, i);
    }
    if Contains(s, sub) {
      var i: int :| 0 <= i <= |s| - |sub| && OccursAt(s, sub, i);
      if i + |sub| <= |a| {
        assert a[i..i + |sub|] == s[i..i + |sub|];
        assert OccursAt(a, sub, i);
      } else if i >= |a| + 1 {
        var j := i - |a| - 1;
        assert b[j..j + |sub|] == s[i..i + |sub|];
        assert OccursAt(b, sub, j);
      } else {
        CoveredByOccurrence(s, sub, i, |a|);
        assert false;
      }
    }
  }

  /** No non-empty word occurs in the empty string. */
  lemma NothingInEmpty(sub: string)
    requires |sub| > 0
    ensures !Contains("", sub)
  {
  }

  /**
    When `sub` avoids the separator, it occurs in a joined string exactly when
    it occurs in one of the joined pieces.
   */
  lemma {:induction false} ContainsJoin(parts: seq<string>, sep: char, sub: string)
    requires |sub| > 0 && sep !in sub
    ensures Contains(Join(parts, sep), sub) <==> exists p :: p in parts && Contains(p, sub)
    decreases |parts|
  {
    if |parts| == 0 {
      NothingInEmpty(sub);
    } else if |parts| == 1 {
      assert parts[0] in parts;
    } else {
      ContainsJoin(parts[1..], sep, sub);
      ContainsAroundSeparator(parts[0], sep, Join(parts[1..], sep), sub);
      assert parts[0] in parts;
      assert forall p :: p in parts[1..] ==> p in parts;
      assert forall p :: p in parts ==> p == parts[0] || p in parts[1..];
    }
  }
}
