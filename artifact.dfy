/** The artifact path `os.path.join(dynamics_path, f'{task}-{level}-{amount}-{seed}.pt')`. */
module Artifact {

  /** The character of a decimal digit. */
  function DigitChar(d: nat): (c: char)
    requires d < 10
    ensures '0' <= c <= '9' && c as int - '0' as int == d
  {
    ('0' as int + d) as char
  }

  predicate AllDigits(s: string) {
    forall i :: 0 <= i < |s| ==> '0' <= s[i] <= '9'
  }

  /** Python's `str(n)` for `n >= 0`: decimal digits, most significant first,
      without leading zeros. */
  function NatToString(n: nat): (s: string)
    ensures 1 <= |s| && AllDigits(s)
    ensures s[0] == '0' ==> n == 0
  {
    if n < 10 then [DigitChar(n)] else NatToString(n / 10) + [DigitChar(n % 10)]
  }

  /** Reads a string of decimal digits back as a number. */
  function ParseNat(s: string): nat
    requires AllDigits(s)
  {
    if s == [] then 0 else ParseNat(s[..|s| - 1]) * 10 + (s[|s| - 1] as int - '0' as int)
  }

  /** Reading the rendering of `n` gives `n` back. */
  lemma {:induction false} ParseNatToString(n: nat)
    ensures ParseNat(NatToString(n)) == n
  {
    if n >= 10 {
      ParseNatToString(n / 10);
      var s := NatToString(n);
      assert s[..|s| - 1] == NatToString(n / 10);
    }
  }

  /** Python's `str(i)` on an integer: a minus sign before the digits of `|i|`. */
  function IntToString(i: int): (s: string)
    ensures 1 <= |s| && (s[0] == '-' <==> i < 0)
    ensures i < 0 ==> AllDigits(s[1..]) && ParseNat(s[1..]) == -i
    ensures 0 <= i ==> AllDigits(s) && ParseNat(s) == i
  {
    if i < 0 then
      ParseNatToString(-i);
      assert ("-" + NatToString(-i))[1..] == NatToString(-i);
      "-" + NatToString(-i)
    else
      ParseNatToString(i);
      NatToString(i)
  }

  /** Distinct integers render differently. */
  lemma IntToStringInjective(a: int, b: int)
    requires IntToString(a) == IntToString(b)
    ensures a == b
  {
    // the sign shows in the first character
    assert a < 0 <==> IntToString(a)[0] == '-';
    assert b < 0 <==> IntToString(b)[0] == '-';
    if a >= 0 {
      ParseNatToString(a);
      ParseNatToString(b);
    } else {
      assert NatToString(-a) == IntToString(a)[1..];
      assert NatToString(-b) == IntToString(b)[1..];
      ParseNatToString(-a);
      ParseNatToString(-b);
    }
  }

  /** The file name `{task}-{level}-{amount}-{seed}.pt`. */
  function ArtifactName(task: string, level: string, amount: int, seed: int): (name: string)
    ensures |task| + |level| + 8 <= |name|
    ensures name[..|task| + |level| + 2] == task + "-" + level + "-"
    ensures name[|name| - 3..] == ".pt"
  {
    task + "-" + level + "-" + IntToString(amount) + "-" + IntToString(seed) + ".pt"
  }

  /** `x - d` splits at its last dash when `d` has none. */
  lemma SplitAtLastDash(x: string, d: string, y: string, e: string)
    requires '-' !in d && '-' !in e
    requires x + "-" + d == y + "-" + e
    ensures x == y && d == e
  {
    var s := x + "-" + d;
    assert s[|s| - |d| - 1] == '-';
    assert s[|s| - |e| - 1] == '-';
    assert forall p :: |s| - |d| <= p < |s| ==> s[p] == d[p - (|s| - |d|)];
    assert forall p :: |s| - |e| <= p < |s| ==> s[p] == e[p - (|s| - |e|)];
    assert |d| == |e|;
    assert d == s[|s| - |d|..] == e;
    assert x == s[..|x|] == y;
  }

  lemma NoDashInNumber(n: int)
    requires 0 <= n
    ensures '-' !in IntToString(n)
  {
  }

  /** Runs that differ in task, level, amount or seed write different files, as
      long as the level has no dash and amount and seed are not negative (a
      task may contain dashes, as `HalfCheetah-v3` does). */
  lemma ArtifactNameInjective(task1: string, level1: string, amount1: int, seed1: int,
                              task2: string, level2: string, amount2: int, seed2: int)
    requires '-' !in level1 && '-' !in level2
    requires 0 <= amount1 && 0 <= amount2 && 0 <= seed1 && 0 <= seed2
    requires ArtifactName(task1, level1, amount1, seed1) == ArtifactName(task2, level2, amount2, seed2)
    ensures task1 == task2 && level1 == level2 && amount1 == amount2 && seed1 == seed2
  {
    var a1, a2 := IntToString(amount1), IntToString(amount2);
    var s1, s2 := IntToString(seed1), IntToString(seed2);
    NoDashInNumber(amount1);
    NoDashInNumber(amount2);
    NoDashInNumber(seed1);
    NoDashInNumber(seed2);
    var n1, n2 := ArtifactName(task1, level1, amount1, seed1), ArtifactName(task2, level2, amount2, seed2);
    var stem1, stem2 := task1 + "-" + level1 + "-" + a1 + "-" + s1, task2 + "-" + level2 + "-" + a2 + "-" + s2;
    assert n1 == stem1 + ".pt" && n2 == stem2 + ".pt";
    assert stem1 == n1[..|n1| - 3] && stem2 == n2[..|n2| - 3];
    SplitAtLastDash(task1 + "-" + level1 + "-" + a1, s1, task2 + "-" + level2 + "-" + a2, s2);
    SplitAtLastDash(task1 + "-" + level1, a1, task2 + "-" + level2, a2);
    SplitAtLastDash(task1, level1, task2, level2);
    IntToStringInjective(amount1, amount2);
    IntToStringInjective(seed1, seed2);
  }

  /** POSIX `os.path.join(dir, name)`: an absolute `name` replaces `dir`; `dir`
      is followed by a separator unless it is empty or already ends in one. */
  function Join(dir: string, name: string): (path: string)
    ensures |name| > 0 && name[0] == '/' ==> path == name
    ensures !(|name| > 0 && name[0] == '/') ==>
      |dir| <= |path| && path[..|dir|] == dir
      && (dir != [] && dir[|dir| - 1] != '/' ==> |dir| < |path| && path[|dir|] == '/')
  {
    if |name| > 0 && name[0] == '/' then name
    else if dir == [] || dir[|dir| - 1] == '/' then dir + name
    else dir + "/" + name
  }

  /** The joined path ends with the name. */
  lemma JoinEndsWithName(dir: string, name: string)
    ensures |Join(dir, name)| >= |name|
    ensures Join(dir, name)[|Join(dir, name)| - |name|..] == name
  {
  }

  /** For a relative name, the joined path is a prefix fixed by the directory
      followed by the name; so distinct names give distinct paths, and the path
      is never empty when the name is not. */
  lemma JoinKeepsNamesApart(dir: string, name1: string, name2: string)
    requires !(|name1| > 0 && name1[0] == '/') && !(|name2| > 0 && name2[0] == '/')
    ensures Join(dir, name1) == Join(dir, name2) ==> name1 == name2
    ensures |name1| > 0 ==> Join(dir, name1) != []
  {
    var p := Join(dir, []);
    assert Join(dir, name1) == p + name1 && Join(dir, name2) == p + name2;
    if Join(dir, name1) == Join(dir, name2) {
      assert name1 == (p + name1)[|p|..];
    }
  }
}
