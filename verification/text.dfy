/** Strings as the tagger sees them: `str.lower()` and the substring test
    `keyword in text`. Lower-casing is modelled on ASCII letters only. */
module Text {

  /** Lower-cases an ASCII capital letter and leaves every other character alone. */
  function LowerChar(c: char): char
  {
    if 'A' <= c <= 'Z' then (c as int + 32) as char else c
  }

  /** `s.lower()`, character by character. */
  function Lower(s: string): (r: string)
    ensures |r| == |s|
  {
    seq(|s|, i requires 0 <= i < |s| => LowerChar(s[i]))
  }

  /** `k` occurs in `text` starting at index `i`. */
  predicate OccursAt(text: string, k: string, i: int)
  {
    0 <= i && i + |k| <= |text| && text[i..i + |k|] == k
  }

  /** Python's `k in text` for two strings: plain substring containment, with
      no notion of word boundaries. The empty string occurs in every text. */
  predicate Contains(text: string, k: string)
  {
    exists i :: 0 <= i <= |text| - |k| && OccursAt(text, k, i)
  }

  /** Lower-casing twice is lower-casing once. */
  lemma LowerIdempotent(s: string)
    ensures Lower(Lower(s)) == Lower(s)
  {
  }

  /** Lower-casing commutes with slicing. */
  lemma LowerSlice(s: string, i: int, j: int)
    requires 0 <= i <= j <= |s|
    ensures Lower(s[i..j]) == Lower(s)[i..j]
  {
  }

  /** Containment is transitive: whatever occurs in a piece of `u` occurs in `u`. */
  lemma ContainsTransitive(u: string, t: string, k: string)
    requires Contains(u, t) && Contains(t, k)
    ensures Contains(u, k)
  {
    var i :| 0 <= i <= |u| - |t| && OccursAt(u, t, i);
    var j :| 0 <= j <= |t| - |k| && OccursAt(t, k, j);
    assert u[i + j..i + j + |k|] == k by {
      forall n | 0 <= n < |k|
        ensures u[i + j + n] == k[n]
      {
        assert u[i + j + n] == u[i..i + |t|][j + n] == t[j + n];
        assert t[j + n] == t[j..j + |k|][n];
      }
    }
    assert OccursAt(u, k, i + j);
  }

  /** If `t` occurs in `u`, then `t.lower()` occurs in `u.lower()`. */
  lemma ContainsLower(u: string, t: string)
    requires Contains(u, t)
    ensures Contains(Lower(u), Lower(t))
  {
    var i :| 0 <= i <= |u| - |t| && OccursAt(u, t, i);
    LowerSlice(u, i, i + |t|);
    assert OccursAt(Lower(u), Lower(t), i);
  }

  /** A text occurs in any extension of it, on either side. */
  lemma ContainsInExtension(t: string, s: string)
    ensures Contains(t + s, t) && Contains(s + t, t)
  {
    assert OccursAt(t + s, t, 0) by {
      assert (t + s)[0..|t|] == t;
    }
    assert OccursAt(s + t, t, |s|) by {
      assert (s + t)[|s|..|s| + |t|] == t;
    }
  }

  /** Only the empty string occurs in the empty text. */
  lemma ContainsInEmpty(k: string)
    ensures Contains("", k) <==> k == ""
  {
    if k == "" {
      assert OccursAt("", k, 0);
    }
  }
}
