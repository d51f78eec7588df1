/** The three `os.path` functions the tool uses, as POSIX `posixpath`
    defines them on '/'-separated strings. */
module Paths {
  import opened Strings

  /** Index just past the last '/', or 0 when `p` has none
      (`p.rfind('/') + 1`). */
  function LastSlashEnd(p: string): (i: nat)
    ensures i <= |p|
    ensures i > 0 ==> p[i - 1] == '/'
    ensures forall j :: i <= j < |p| ==> p[j] != '/'
  {
    if p == [] then 0
    else if p[|p| - 1] == '/' then |p|
    else LastSlashEnd(p[..|p| - 1])
  }

  predicate AllSlashes(s: string) {
    forall i :: 0 <= i < |s| ==> s[i] == '/'
  }

  /** `os.path.basename(p)`. */
  function Basename(p: string): string {
    p[LastSlashEnd(p)..]
  }

  /** The basename is the part after the last '/': a suffix without '/',
      preceded by a '/' unless it is the whole path. */
  lemma BasenameSpec(p: string)
    ensures |Basename(p)| <= |p| && p[|p| - |Basename(p)|..] == Basename(p)
    ensures '/' !in Basename(p)
    ensures |Basename(p)| < |p| ==> p[|p| - |Basename(p)| - 1] == '/'
  {
  }

  /** `os.path.dirname(p)`: everything up to the last '/', with trailing
      slashes dropped unless the head consists of slashes only. */
  function Dirname(p: string): (r: string)
    ensures r <= p[..LastSlashEnd(p)]
    ensures forall j :: |r| <= j < LastSlashEnd(p) ==> p[j] == '/'
    ensures AllSlashes(p[..LastSlashEnd(p)]) ==> r == p[..LastSlashEnd(p)]
    ensures !AllSlashes(p[..LastSlashEnd(p)]) ==> r != [] && r[|r| - 1] != '/'
    ensures '/' !in p ==> r == []
  {
    var head := p[..LastSlashEnd(p)];
    if head != [] && !AllSlashes(head) then RStripChar(head, '/') else head
  }

  /** `os.path.join(a, b)` for two components: an absolute `b` replaces
      `a`; otherwise `b` follows `a`, with a '/' between them unless `a` is
      empty or already ends with one. */
  function JoinPath(a: string, b: string): (r: string)
    ensures b != [] && b[0] == '/' ==> r == b
    ensures !(b != [] && b[0] == '/') ==>
      && |r| == |a| + |b| + (if a == [] || a[|a| - 1] == '/' then 0 else 1)
      && a <= r && r[|r| - |b|..] == b
      && (|r| > |a| + |b| ==> r[|a|] == '/')
    ensures '/' !in b && b != [] ==> Basename(r) == b
  {
    if b != [] && b[0] == '/' then b
    else if a == [] || a[|a| - 1] == '/' then
      assert '/' !in b ==> Basename(a + b) == b by { if '/' !in b { BasenameAfterSlash(a, b); } }
      a + b
    else
      assert '/' !in b ==> Basename(a + "/" + b) == b by { if '/' !in b { BasenameAfterSlash(a + "/", b); } }
      a + "/" + b
  }

  /** The basename of `a + b`, when `a` ends at a separator (or is empty)
      and `b` has none, is `b`. */
  lemma BasenameAfterSlash(a: string, b: string)
    requires a == [] || a[|a| - 1] == '/'
    requires '/' !in b
    ensures Basename(a + b) == b
  {
    LastSlashEndAfter(a, b);
    assert (a + b)[|a|..] == b;
  }

  /** The last separator of `a + b` is the one ending `a` when `b` has none. */
  lemma {:induction false} LastSlashEndAfter(a: string, b: string)
    requires a == [] || a[|a| - 1] == '/'
    requires '/' !in b
    ensures LastSlashEnd(a + b) == |a|
  {
    if b == [] {
      assert a + b == a;
    } else {
      var init := b[..|b| - 1];
      assert b[|b| - 1] in b;
      assert (a + b)[..|a + b| - 1] == a + init;
      assert forall c :: c in init ==> c in b;
      LastSlashEndAfter(a, init);
    }
  }
}
