/**
  The file name `duplicate_card` copies a card to: the card's name without its
  extension, followed by " (copy)", " (copy 2)", " (copy 3)", ... and ".png",
  the first such name that does not exist in the folder.
 */
module Duplicate {
  import opened Text

  /** The position of the last '.', or -1. */
  function LastDot(s: string): (r: int)
    ensures -1 <= r < |s|
    ensures r >= 0 ==> s[r] == '.'
    ensures forall j :: r < j < |s| ==> s[j] != '.'
  {
    if s == [] then -1
    else if s[|s| - 1] == '.' then |s| - 1
    else LastDot(s[..|s| - 1])
  }

  /**
    `os.path.splitext(name)[0]` for a name without directory separators: the
    name up to its last '.', unless only dots precede that '.' (".png" and
    "..png" have no extension), in which case the whole name.
   */
  function Stem(name: string): (root: string)
    ensures root <= name
    ensures root == name || (name[|root|] == '.' && forall j :: |root| < j < |name| ==> name[j] != '.')
    ensures root != name ==> exists j :: 0 <= j < |root| && root[j] != '.'
    ensures (forall j :: 0 <= j < |name| ==> name[j] != '.') ==> root == name
    ensures (exists i, j :: 0 <= j < i < |name| && name[i] == '.' && name[j] != '.') ==> root != name
  {
    var d := LastDot(name);
    if d > 0 && exists j :: 0 <= j < d && name[j] != '.' then name[..d] else name
  }

  /** The `n`-th candidate: "base (copy).png", then "base (copy 2).png", ... */
  function CopyName(base: string, n: nat): (r: string)
    requires 1 <= n
    ensures base <= r && EndsWith(r, ".png")
  {
    if n == 1 then base + " (copy).png" else base + " (copy " + Decimal(n) + ").png"
  }

  /** Different copy numbers give different names. */
  lemma CopyNameInjective(base: string, m: nat, n: nat)
    requires 1 <= m && 1 <= n && CopyName(base, m) == CopyName(base, n)
    ensures m == n
  {
    var b := |base|;
    if m >= 2 && n >= 2 {
      var s := CopyName(base, m);
      assert s == base + " (copy " + Decimal(m) + ").png";
      assert s[b + 7..|s| - 5] == Decimal(m);
      assert s == base + " (copy " + Decimal(n) + ").png";
      assert s[b + 7..|s| - 5] == Decimal(n);
      DecimalInjective(m, n);
    }
  }

  /**
    The name-picking loop of `duplicate_card` against the set of names that
    exist in the folder: the first candidate that does not exist.
   */
  method DuplicateName(base: string, existing: set<string>) returns (candidate: string, n: nat)
    ensures 1 <= n && candidate == CopyName(base, n)
    ensures candidate !in existing
    ensures forall m :: 1 <= m < n ==> CopyName(base, m) in existing
  {
    n := 1;
    candidate := CopyName(base, 1);
    ghost var tried: set<string> := {};
    while candidate in existing
      invariant 1 <= n && candidate == CopyName(base, n)
      invariant forall m :: 1 <= m < n ==> CopyName(base, m) in existing
      invariant tried <= existing && |tried| == n - 1
      invariant forall x :: x in tried ==> exists m :: 1 <= m < n && x == CopyName(base, m)
      decreases |existing| - |tried|
    {
      assert candidate !in tried by {
        if candidate in tried {
          var m :| 1 <= m < n && candidate == CopyName(base, m);
          CopyNameInjective(base, m, n);
        }
      }
      tried := tried + {candidate};
      n := n + 1;
      candidate := CopyName(base, n);
      SubsetSize(tried, existing);
    }
  }

  lemma SubsetSize(a: set<string>, b: set<string>)
    requires a <= b
    ensures |a| <= |b|
  {
    assert b == a + (b - a);
  }
}
