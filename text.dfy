// String operations the ledger relies on: Python's str.lower and `in`,
// os.path.basename, pathlib's Path.name and Path.suffix, and the two
// regular expressions of the context heuristic.
module Text {
  import opened Wrappers

  /** str.lower() on one character; only ASCII letters change. */
  function LowerChar(c: char): char {
    if 'A' <= c <= 'Z' then (c as int + 32) as char else c
  }

  /** str.lower(), character by character. */
  function Lower(s: string): (r: string)
    ensures |r| == |s|
    ensures forall i :: 0 <= i < |s| ==> r[i] == LowerChar(s[i])
  {
    if s == [] then [] else [LowerChar(s[0])] + Lower(s[1..])
  }

  predicate StartsWith(s: string, prefix: string) {
    |prefix| <= |s| && s[..|prefix|] == prefix
  }

  predicate EndsWith(s: string, suffix: string) {
    |suffix| <= |s| && s[|s| - |suffix|..] == suffix
  }

  /** `needle` occurs in `s` at offset `i`, comparing from its `k`-th character on. */
  predicate MatchesFrom(s: string, needle: string, i: nat, k: nat)
    requires i + |needle| <= |s| && k <= |needle|
    decreases |needle| - k
  {
    k == |needle| || (s[i + k] == needle[k] && MatchesFrom(s, needle, i, k + 1))
  }

  /** `needle` occurs in `s` at offset `i`. */
  predicate OccursAt(s: string, needle: string, i: nat) {
    i + |needle| <= |s| && MatchesFrom(s, needle, i, 0)
  }

  /** `needle` occurs in `s` at some offset `i` or later. */
  predicate ContainsFrom(s: string, needle: string, i: nat)
    decreases |s| - i
  {
    i + |needle| <= |s| && (MatchesFrom(s, needle, i, 0) || ContainsFrom(s, needle, i + 1))
  }

  /** Python's `needle in s` for strings. */
  predicate Contains(s: string, needle: string) {
    ContainsFrom(s, needle, 0)
  }

  lemma {:induction false} MatchesFromIff(s: string, needle: string, i: nat, k: nat)
    requires i + |needle| <= |s| && k <= |needle|
    ensures MatchesFrom(s, needle, i, k) <==> s[i + k..i + |needle|] == needle[k..]
    decreases |needle| - k
  {
    if k < |needle| {
      MatchesFromIff(s, needle, i, k + 1);
      assert s[i + k..i + |needle|] == [s[i + k]] + s[i + k + 1..i + |needle|];
      assert needle[k..] == [needle[k]] + needle[k + 1..];
    }
  }

  /** OccursAt is the comparison of a slice. */
  lemma OccursAtIff(s: string, needle: string, i: nat)
    ensures OccursAt(s, needle, i) <==> i + |needle| <= |s| && s[i..i + |needle|] == needle
  {
    if i + |needle| <= |s| {
      MatchesFromIff(s, needle, i, 0);
    }
  }

  lemma {:induction false} ContainsFromIff(s: string, needle: string, i: nat)
    ensures ContainsFrom(s, needle, i) <==> exists j :: i <= j && OccursAt(s, needle, j)
    decreases |s| - i
  {
    if i + |needle| <= |s| {
      ContainsFromIff(s, needle, i + 1);
      assert OccursAt(s, needle, i) == MatchesFrom(s, needle, i, 0);
      if exists j :: i <= j && OccursAt(s, needle, j) {
        var j :| i <= j && OccursAt(s, needle, j);
        assert j == i || (i + 1 <= j && OccursAt(s, needle, j));
      }
    }
  }

  /** Contains is substring search: the needle occurs as a slice of `s` at some offset. */
  lemma ContainsIff(s: string, needle: string)
    ensures Contains(s, needle) <==> exists i :: 0 <= i && OccursAt(s, needle, i)
    ensures forall i: nat :: OccursAt(s, needle, i) <==> i + |needle| <= |s| && s[i..i + |needle|] == needle
  {
    ContainsFromIff(s, needle, 0);
    forall i: nat ensures OccursAt(s, needle, i) <==> i + |needle| <= |s| && s[i..i + |needle|] == needle {
      OccursAtIff(s, needle, i);
    }
  }

  /** The part of `p` after its last '/': os.path.basename, and the
      name of an already normalised path. */
  function AfterLastSlash(p: string): (r: string)
    ensures '/' !in r
    ensures EndsWith(p, r)
    ensures |r| < |p| ==> p[|p| - |r| - 1] == '/'
    decreases |p|
  {
    if p == [] then []
    else if p[|p| - 1] == '/' then []
    else
      var init := p[..|p| - 1];
      var r := AfterLastSlash(init);
      assert p[|p| - |r| - 1..] == init[|init| - |r|..] + [p[|p| - 1]];
      r + [p[|p| - 1]]
  }

  /** Index of the last occurrence of `c` in `s`. */
  function LastIndexOf(s: string, c: char): (r: Option<nat>)
    ensures r.Some? ==> r.value < |s| && s[r.value] == c && c !in s[r.value + 1..]
    ensures r.None? ==> c !in s
    decreases |s|
  {
    if s == [] then None
    else if s[|s| - 1] == c then Some(|s| - 1)
    else
      var r := LastIndexOf(s[..|s| - 1], c);
      assert r.Some? ==> s[r.value + 1..] == s[..|s| - 1][r.value + 1..] + [s[|s| - 1]];
      r
  }

  /** pathlib's Path.suffix of a file name: from its last '.' to the end,
      provided that dot is neither the first nor the last character;
      otherwise empty (so ".gitignore" and "notes." have no suffix). */
  function Suffix(name: string): (r: string)
    ensures r == [] || (2 <= |r| < |name| && r[0] == '.' && '.' !in r[1..] && EndsWith(name, r))
    ensures r != [] <==> exists i :: 0 < i < |name| - 1 && name[i] == '.' && '.' !in name[i + 1..]
  {
    match LastIndexOf(name, '.')
    case Some(i) =>
      if 0 < i < |name| - 1 then
        assert name[i..][1..] == name[i + 1..];
        name[i..]
      else
        assert forall j :: 0 < j < |name| - 1 && name[j] == '.' ==> '.' in name[j + 1..] by {
          forall j | 0 < j < |name| - 1 && name[j] == '.' && j < i ensures '.' in name[j + 1..] {
            assert name[i] == name[j + 1..][i - j - 1];
          }
        }
        []
    case None => []
  }

  /** Python's slice `s[1:]`, empty for an empty string. */
  function DropFirst(s: string): (r: string)
    ensures s != [] ==> r == s[1..]
    ensures s == [] ==> r == []
  {
    if s == [] then [] else s[1..]
  }

  /** A non-empty suffix is a dot followed by `suffix[1:]`, which holds no
      further dot: the extension name that the descriptions print. */
  lemma SuffixWithoutDot(name: string)
    ensures Suffix(name) != [] ==> Suffix(name) == "." + DropFirst(Suffix(name)) && '.' !in DropFirst(Suffix(name))
  {
    var x := Suffix(name);
    if x != [] {
      assert x == [x[0]] + x[1..];
    }
  }

  /** The regular-expression class `\s`, restricted to ASCII. */
  predicate IsSpace(c: char) {
    9 <= c as int <= 13 || 28 <= c as int <= 32
  }

  /** The regular-expression class `\w`, restricted to ASCII. */
  predicate IsWordChar(c: char) {
    'a' <= c <= 'z' || 'A' <= c <= 'Z' || '0' <= c <= '9' || c == '_'
  }

  /** `\s+\w` matches at offset `i` of `s`: one or more spaces, then a word character. */
  predicate SpacesThenWordAt(s: string, i: nat)
    decreases |s| - i
  {
    i + 1 < |s| && IsSpace(s[i]) && (IsWordChar(s[i + 1]) || SpacesThenWordAt(s, i + 1))
  }

  /** The pattern `keyword\s+\w+` matches at offset `i` of `s`. */
  predicate DefinitionAt(s: string, keyword: string, i: nat) {
    OccursAt(s, keyword, i) && SpacesThenWordAt(s, i + |keyword|)
  }

  /** The pattern `keyword\s+\w+` matches at offset `i` or later. */
  predicate SearchDefinitionFrom(s: string, keyword: string, i: nat)
    decreases |s| - i
  {
    i < |s| && (DefinitionAt(s, keyword, i) || SearchDefinitionFrom(s, keyword, i + 1))
  }

  /** re.search(keyword + r'\s+\w+', s) finds a match. */
  predicate SearchDefinition(s: string, keyword: string) {
    SearchDefinitionFrom(s, keyword, 0)
  }
}
