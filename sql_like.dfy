/** SQL `LIKE` as the store evaluates it: `%` matches any run of
    characters, `_` matches any single character, everything else matches
    itself. */
module SqlLike {
  import opened Text

  function Like(s: string, p: string): bool
    decreases |s| + |p|
  {
    if p == [] then s == []
    else if p[0] == '%' then Like(s, p[1..]) || (s != [] && Like(s[1..], p))
    else s != [] && (p[0] == '_' || p[0] == s[0]) && Like(s[1..], p[1..])
  }

  /** `t` contains neither wildcard, so it can only match itself. */
  predicate IsLiteral(t: string) {
    forall i :: 0 <= i < |t| ==> t[i] != '%' && t[i] != '_'
  }

  /** A lone `%` matches every string. */
  lemma {:induction false} PercentMatchesAll(s: string)
    ensures Like(s, "%")
  {
    assert "%"[1..] == [];
    if s != [] {
      PercentMatchesAll(s[1..]);
    }
  }

  /** `t%` matches exactly the strings that start with a literal `t`. */
  lemma {:induction false} LikePrefix(s: string, t: string)
    requires IsLiteral(t)
    ensures Like(s, t + "%") <==> t <= s
  {
    if t == [] {
      assert t + "%" == "%";
      PercentMatchesAll(s);
    } else {
      assert (t + "%")[0] == t[0];
      assert (t + "%")[1..] == t[1..] + "%";
      if s != [] {
        LikePrefix(s[1..], t[1..]);
        assert t <= s <==> t[0] == s[0] && t[1..] <= s[1..];
      }
    }
  }

  /** `%t%` matches exactly the strings that contain a literal `t`. */
  lemma {:induction false} LikeContains(s: string, t: string)
    requires IsLiteral(t)
    ensures Like(s, "%" + t + "%") <==> Contains(s, t)
  {
    var p := "%" + t + "%";
    assert p[0] == '%' && p[1..] == t + "%";
    LikePrefix(s, t);
    if s != [] {
      LikeContains(s[1..], t);
    }
  }

  /** A term made of one `_` is not matched literally: `%_%` matches every
      non-empty string. */
  lemma UnderscoreMatchesNonEmpty(s: string)
    requires s != []
    ensures Like(s, "%" + "_" + "%")
  {
    var p := "%" + "_" + "%";
    assert p[1..] == "_%" && "_%"[1..] == "%";
    PercentMatchesAll(s[1..]);
  }
}
