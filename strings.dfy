/** The string operations the program applies to file names: `str.lower`,
    `str.endswith` (with one suffix or a tuple of them) and
    `os.path.basename`. Characters are lower-cased as ASCII. */
module Strings {

  predicate IsUpper(c: char) {
    'A' <= c <= 'Z'
  }

  /** `str.lower` on one ASCII character. */
  function LowerChar(c: char): (d: char)
    ensures !IsUpper(d)
    ensures IsUpper(c) ==> d as int == c as int + 32
    ensures !IsUpper(c) ==> d == c
  {
    if IsUpper(c) then (c as int + 32) as char else c
  }

  /** `str.lower`: every character lower-cased, the length kept. */
  function LowerStr(s: string): (r: string)
    ensures |r| == |s|
    ensures forall i :: 0 <= i < |s| ==> r[i] == LowerChar(s[i])
  {
    if s == [] then [] else [LowerChar(s[0])] + LowerStr(s[1..])
  }

  lemma LowerStrConcat(a: string, b: string)
    ensures LowerStr(a + b) == LowerStr(a) + LowerStr(b)
  {
    var l, r := LowerStr(a + b), LowerStr(a) + LowerStr(b);
    assert forall i | 0 <= i < |l| :: l[i] == r[i] by {
      forall i | 0 <= i < |l| ensures l[i] == r[i] {
        if i < |a| { assert (a + b)[i] == a[i]; } else { assert (a + b)[i] == b[i - |a|]; }
      }
    }
  }

  /** Lower-casing twice is lower-casing once. */
  lemma LowerStrIdempotent(s: string)
    ensures LowerStr(LowerStr(s)) == LowerStr(s)
  {
  }

  /** `s.endswith(suffix)`. */
  predicate EndsWith(s: string, suffix: string) {
    |suffix| <= |s| && s[|s| - |suffix|..] == suffix
  }

  /** `s.endswith(suffixes)` for a tuple of suffixes. */
  function EndsWithAny(s: string, suffixes: seq<string>): bool {
    if suffixes == [] then false else EndsWith(s, suffixes[0]) || EndsWithAny(s, suffixes[1..])
  }

  lemma EndsWithAnyCons(s: string, suffix: string, suffixes: seq<string>)
    ensures EndsWithAny(s, [suffix] + suffixes) == (EndsWith(s, suffix) || EndsWithAny(s, suffixes))
  {
    assert ([suffix] + suffixes)[1..] == suffixes;
  }

  /** The tuple form is true exactly when one of its suffixes matches. */
  lemma {:induction false} EndsWithAnyIff(s: string, suffixes: seq<string>)
    ensures EndsWithAny(s, suffixes) <==> exists i :: 0 <= i < |suffixes| && EndsWith(s, suffixes[i])
  {
    if suffixes != [] {
      EndsWithAnyIff(s, suffixes[1..]);
      forall i | 1 <= i < |suffixes| ensures suffixes[1..][i - 1] == suffixes[i] { }
    }
  }

  /** Of two suffixes of one string, the shorter is a suffix of the longer. */
  lemma EndsWithBoth(s: string, short: string, long: string)
    requires EndsWith(s, short) && EndsWith(s, long) && |short| <= |long|
    ensures EndsWith(long, short)
  {
    assert long[|long| - |short|..] == s[|s| - |short|..];
  }

  /** A suffix free of '/' matches a joined path `pre/name` exactly when it
      matches the last component `name`. */
  lemma EndsWithAfterSlash(pre: string, name: string, suffix: string)
    requires '/' !in suffix
    ensures EndsWith(pre + "/" + name, suffix) <==> EndsWith(name, suffix)
  {
    var s := pre + "/" + name;
    if |suffix| <= |name| {
      assert s[|s| - |suffix|..] == name[|name| - |suffix|..];
    } else if |suffix| <= |s| {
      var k := |pre| - (|s| - |suffix|);
      assert s[|s| - |suffix|..][k] == '/' != suffix[k];
    }
  }

  /** The same for a tuple of suffixes. */
  lemma {:induction false} EndsWithAnyAfterSlash(pre: string, name: string, suffixes: seq<string>)
    requires forall i :: 0 <= i < |suffixes| ==> '/' !in suffixes[i]
    ensures EndsWithAny(pre + "/" + name, suffixes) == EndsWithAny(name, suffixes)
  {
    if suffixes != [] {
      EndsWithAfterSlash(pre, name, suffixes[0]);
      EndsWithAnyAfterSlash(pre, name, suffixes[1..]);
    }
  }

  /** `os.path.basename`: the part of the path after its last '/'. */
  function Basename(path: string): (b: string)
    ensures '/' !in b
    ensures EndsWith(path, b)
    ensures |b| < |path| ==> path[|path| - |b| - 1] == '/'
  {
    if path == [] then []
    else if path[|path| - 1] == '/' then []
    else Basename(path[..|path| - 1]) + [path[|path| - 1]]
  }
}
