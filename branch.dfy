/**
 * Branch naming: the slug made from a free-form name, the number of the
 * next branch of a type (one more than the largest number among the
 * existing branches of that type), and the branch name
 * "<type>/#<number, at least 4 digits>_<slug>".
 *
 * The list of existing branch references comes from git and is a
 * parameter; creating and pushing the branch are left out.
 */
module Branches {
  import opened Wrappers
  import opened Seqs

  /** The accepted branch types. */
  const TYPES: seq<string> := ["feature", "fix", "refactor"]

  // ---------------------------------------------------------------- slugify

  predicate IsUpper(c: char)
  {
    'A' <= c <= 'Z'
  }

  function ToLower(c: char): (r: char)
    ensures IsUpper(c) ==> r == (c as int - 'A' as int + 'a' as int) as char
    ensures !IsUpper(c) ==> r == c
  {
    if IsUpper(c) then (c as int - 'A' as int + 'a' as int) as char else c
  }

  /** The characters a slug may hold: [a-z0-9._-]. */
  predicate Allowed(c: char)
  {
    ('a' <= c <= 'z') || ('0' <= c <= '9') || c == '.' || c == '_' || c == '-'
  }

  predicate AllAllowed(s: string)
  {
    forall k :: 0 <= k < |s| ==> Allowed(s[k])
  }

  /** No two consecutive '-'. */
  predicate NoDoubleDash(s: string)
  {
    forall k :: 0 <= k < |s| - 1 ==> !(s[k] == '-' && s[k + 1] == '-')
  }

  predicate Strippable(c: char)
  {
    c == '-' || c == '_'
  }

  /** Lower-cases and turns every space into '-'. */
  function LowerDashed(s: string): (r: string)
    ensures |r| == |s|
    ensures forall k :: 0 <= k < |s| ==> r[k] == if s[k] == ' ' then '-' else ToLower(s[k])
  {
    if s == [] then [] else [if s[0] == ' ' then '-' else ToLower(s[0])] + LowerDashed(s[1..])
  }

  /** Replaces every maximal run of disallowed characters with one '-'; `inRun` says a run is already open. */
  function ReplaceDisallowed(s: string, inRun: bool): (r: string)
    ensures AllAllowed(r)
    decreases |s|
  {
    if s == [] then []
    else if !Allowed(s[0]) then (if inRun then ReplaceDisallowed(s[1..], true) else ['-'] + ReplaceDisallowed(s[1..], true))
    else [s[0]] + ReplaceDisallowed(s[1..], false)
  }

  /** Replaces every run of '-' with one '-'; `inRun` says the last character kept was a '-' of the run. */
  function CollapseDashes(s: string, inRun: bool): (r: string)
    decreases |s|
  {
    if s == [] then []
    else if s[0] == '-' then (if inRun then CollapseDashes(s[1..], true) else ['-'] + CollapseDashes(s[1..], true))
    else [s[0]] + CollapseDashes(s[1..], false)
  }

  /** Drops the leading and the trailing '-' and '_'. */
  function StripEnds(s: string): (r: string)
  {
    StripTrailing(StripLeading(s))
  }

  function StripLeading(s: string): (r: string)
    ensures |r| <= |s| && r == s[|s| - |r|..]
    ensures r == [] || !Strippable(r[0])
    ensures forall k :: 0 <= k < |s| - |r| ==> Strippable(s[k])
  {
    if s != [] && Strippable(s[0]) then StripLeading(s[1..]) else s
  }

  function StripTrailing(s: string): (r: string)
    ensures |r| <= |s| && r == s[..|r|]
    ensures r == [] || !Strippable(r[|r| - 1])
    ensures forall k :: |r| <= k < |s| ==> Strippable(s[k])
  {
    if s != [] && Strippable(s[|s| - 1]) then StripTrailing(s[..|s| - 1]) else s
  }

  function Slugify(name: string): string
  {
    StripEnds(CollapseDashes(ReplaceDisallowed(LowerDashed(name), false), false))
  }

  /** Every character of the collapsed text was in the input or is a '-'. */
  lemma {:induction false} CollapseKeepsAllowed(s: string, inRun: bool)
    requires AllAllowed(s)
    ensures AllAllowed(CollapseDashes(s, inRun))
    decreases |s|
  {
    if s != [] {
      CollapseKeepsAllowed(s[1..], s[0] == '-');
    }
  }

  /** Whether a run of disallowed characters is open after `a`, starting from `inRun`. */
  function RunAfter(a: string, inRun: bool): bool
  {
    if a == [] then inRun else !Allowed(a[|a| - 1])
  }

  /** Replacement works piece by piece: the second piece continues the run state the first leaves. */
  lemma {:induction false} ReplaceSplit(a: string, b: string, inRun: bool)
    ensures ReplaceDisallowed(a + b, inRun) == ReplaceDisallowed(a, inRun) + ReplaceDisallowed(b, RunAfter(a, inRun))
    decreases |a|
  {
    if a == [] {
      assert a + b == b;
    } else {
      var next := !Allowed(a[0]);
      assert (a + b)[0] == a[0] && (a + b)[1..] == a[1..] + b;
      ReplaceSplit(a[1..], b, next);
      assert RunAfter(a[1..], next) == RunAfter(a, inRun) by {
        if a[1..] != [] {
          assert a[1..][|a[1..]| - 1] == a[|a| - 1];
        }
      }
      var head: string := if !Allowed(a[0]) && inRun then [] else if !Allowed(a[0]) then "-" else [a[0]];
      assert ReplaceDisallowed(a, inRun) == head + ReplaceDisallowed(a[1..], next);
      assert ReplaceDisallowed(a + b, inRun) == head + ReplaceDisallowed(a[1..] + b, next);
      ConcatAssoc(head, ReplaceDisallowed(a[1..], next), ReplaceDisallowed(b, RunAfter(a, inRun)));
    }
  }

  /** A non-empty run of disallowed characters becomes one '-', or nothing inside an open run. */
  lemma {:induction false} ReplaceRun(run: string, inRun: bool)
    requires run != [] && forall k :: 0 <= k < |run| ==> !Allowed(run[k])
    ensures ReplaceDisallowed(run, inRun) == if inRun then [] else "-"
    decreases |run|
  {
    if |run| > 1 {
      ReplaceRun(run[1..], true);
    }
  }

  /**
   * A maximal run of disallowed characters, between allowed characters or
   * the ends, becomes exactly one '-', and the text on either side is
   * replaced independently; allowed text is kept as it is (ReplaceAllowed).
   */
  lemma ReplaceRuns(a: string, run: string, b: string)
    requires a == [] || Allowed(a[|a| - 1])
    requires run != [] && forall k :: 0 <= k < |run| ==> !Allowed(run[k])
    requires b == [] || Allowed(b[0])
    ensures ReplaceDisallowed(a + run + b, false) == ReplaceDisallowed(a, false) + "-" + ReplaceDisallowed(b, false)
  {
    calc {
      ReplaceDisallowed(a + run + b, false);
      { ConcatAssoc(a, run, b); }
      ReplaceDisallowed(a + (run + b), false);
      { ReplaceSplit(a, run + b, false); assert !RunAfter(a, false); }
      ReplaceDisallowed(a, false) + ReplaceDisallowed(run + b, false);
      { ReplaceRunThen(run, b); }
      ReplaceDisallowed(a, false) + ("-" + ReplaceDisallowed(b, false));
      { ConcatAssoc(ReplaceDisallowed(a, false), "-", ReplaceDisallowed(b, false)); }
      ReplaceDisallowed(a, false) + "-" + ReplaceDisallowed(b, false);
    }
  }

  lemma ReplaceRunThen(run: string, b: string)
    requires run != [] && forall k :: 0 <= k < |run| ==> !Allowed(run[k])
    requires b == [] || Allowed(b[0])
    ensures ReplaceDisallowed(run + b, false) == "-" + ReplaceDisallowed(b, false)
  {
    ReplaceSplit(run, b, false);
    ReplaceRun(run, false);
    assert ReplaceDisallowed(b, true) == ReplaceDisallowed(b, false);
  }

  /** Whether a run of '-' is open after `a`, starting from `inRun`. */
  function DashAfter(a: string, inRun: bool): bool
  {
    if a == [] then inRun else a[|a| - 1] == '-'
  }

  /** Collapsing works piece by piece: the second piece continues the run state the first leaves. */
  lemma {:induction false} CollapseSplit(a: string, b: string, inRun: bool)
    ensures CollapseDashes(a + b, inRun) == CollapseDashes(a, inRun) + CollapseDashes(b, DashAfter(a, inRun))
    decreases |a|
  {
    if a == [] {
      assert a + b == b;
    } else {
      var next := a[0] == '-';
      assert (a + b)[0] == a[0] && (a + b)[1..] == a[1..] + b;
      CollapseSplit(a[1..], b, next);
      assert DashAfter(a[1..], next) == DashAfter(a, inRun) by {
        if a[1..] != [] {
          assert a[1..][|a[1..]| - 1] == a[|a| - 1];
        }
      }
      var head: string := if a[0] == '-' && inRun then [] else [a[0]];
      assert CollapseDashes(a, inRun) == head + CollapseDashes(a[1..], next);
      assert CollapseDashes(a + b, inRun) == head + CollapseDashes(a[1..] + b, next);
      ConcatAssoc(head, CollapseDashes(a[1..], next), CollapseDashes(b, DashAfter(a, inRun)));
    }
  }

  /** A non-empty run of '-' becomes one '-', or nothing inside an open run. */
  lemma {:induction false} CollapseRun(run: string, inRun: bool)
    requires run != [] && forall k :: 0 <= k < |run| ==> run[k] == '-'
    ensures CollapseDashes(run, inRun) == if inRun then [] else "-"
    decreases |run|
  {
    if |run| > 1 {
      CollapseRun(run[1..], true);
    }
  }

  /**
   * A maximal run of '-' becomes exactly one '-', and the text on either
   * side is collapsed independently; text without "--" is kept as it is
   * (CollapseNoDouble).
   */
  lemma CollapseRuns(a: string, run: string, b: string)
    requires a == [] || a[|a| - 1] != '-'
    requires run != [] && forall k :: 0 <= k < |run| ==> run[k] == '-'
    requires b == [] || b[0] != '-'
    ensures CollapseDashes(a + run + b, false) == CollapseDashes(a, false) + "-" + CollapseDashes(b, false)
  {
    calc {
      CollapseDashes(a + run + b, false);
      { ConcatAssoc(a, run, b); }
      CollapseDashes(a + (run + b), false);
      { CollapseSplit(a, run + b, false); assert !DashAfter(a, false); }
      CollapseDashes(a, false) + CollapseDashes(run + b, false);
      { CollapseRunThen(run, b); }
      CollapseDashes(a, false) + ("-" + CollapseDashes(b, false));
      { ConcatAssoc(CollapseDashes(a, false), "-", CollapseDashes(b, false)); }
      CollapseDashes(a, false) + "-" + CollapseDashes(b, false);
    }
  }

  lemma CollapseRunThen(run: string, b: string)
    requires run != [] && forall k :: 0 <= k < |run| ==> run[k] == '-'
    requires b == [] || b[0] != '-'
    ensures CollapseDashes(run + b, false) == "-" + CollapseDashes(b, false)
  {
    CollapseSplit(run, b, false);
    CollapseRun(run, false);
    assert CollapseDashes(b, true) == CollapseDashes(b, false);
  }

  /** Collapsing leaves no "--", and after an open run it does not start with '-'. */
  lemma {:induction false} CollapseNoDoubleDash(s: string, inRun: bool)
    ensures NoDoubleDash(CollapseDashes(s, inRun))
    ensures inRun ==> CollapseDashes(s, inRun) == [] || CollapseDashes(s, inRun)[0] != '-'
    decreases |s|
  {
    if s != [] {
      CollapseNoDoubleDash(s[1..], s[0] == '-');
    }
  }

  /** A slice of text without "--" or disallowed characters has none either. */
  lemma SliceKeeps(s: string, i: nat, j: nat)
    requires i <= j <= |s|
    requires AllAllowed(s) && NoDoubleDash(s)
    ensures AllAllowed(s[i..j]) && NoDoubleDash(s[i..j])
  {
    assert forall k :: 0 <= k < j - i ==> s[i..j][k] == s[i + k];
  }

  /** Stripping keeps the slice properties and leaves no '-' or '_' at either end. */
  lemma StripEndsGood(s: string)
    requires AllAllowed(s) && NoDoubleDash(s)
    ensures AllAllowed(StripEnds(s)) && NoDoubleDash(StripEnds(s))
    ensures StripEnds(s) == [] || (!Strippable(StripEnds(s)[0]) && !Strippable(StripEnds(s)[|StripEnds(s)| - 1]))
  {
    var l := StripLeading(s);
    SliceKeeps(s, |s| - |l|, |s|);
    var t := StripTrailing(l);
    SliceKeeps(l, 0, |t|);
    if t != [] {
      assert t[0] == l[0];
    }
  }

  /** A slug holds only [a-z0-9._-], has no "--", and neither starts nor ends with '-' or '_'. */
  predicate IsSlug(s: string)
  {
    AllAllowed(s) && NoDoubleDash(s) && (s == [] || (!Strippable(s[0]) && !Strippable(s[|s| - 1])))
  }

  lemma SlugifyIsSlug(name: string)
    ensures IsSlug(Slugify(name))
  {
    var replaced := ReplaceDisallowed(LowerDashed(name), false);
    CollapseKeepsAllowed(replaced, false);
    CollapseNoDoubleDash(replaced, false);
    StripEndsGood(CollapseDashes(replaced, false));
  }

  /** Each step is the identity on a slug. */
  lemma {:induction false} LowerDashedSlug(s: string)
    requires AllAllowed(s)
    ensures LowerDashed(s) == s
  {
    assert forall k :: 0 <= k < |s| ==> LowerDashed(s)[k] == s[k];
  }

  lemma {:induction false} ReplaceAllowed(s: string, inRun: bool)
    requires AllAllowed(s)
    ensures ReplaceDisallowed(s, inRun) == s
    decreases |s|
  {
    if s != [] {
      ReplaceAllowed(s[1..], false);
    }
  }

  lemma {:induction false} CollapseNoDouble(s: string)
    requires NoDoubleDash(s)
    ensures CollapseDashes(s, false) == s
    decreases |s|
  {
    if s != [] {
      if s[0] == '-' {
        CollapseAfterDash(s[1..]);
      } else {
        CollapseNoDouble(s[1..]);
      }
    }
  }

  lemma {:induction false} CollapseAfterDash(s: string)
    requires NoDoubleDash(s)
    requires s == [] || s[0] != '-'
    ensures CollapseDashes(s, true) == s
    decreases |s|
  {
    if s != [] {
      CollapseNoDouble(s[1..]);
    }
  }

  lemma StripSlug(s: string)
    requires IsSlug(s)
    ensures StripEnds(s) == s
  {
  }

  /** Slugifying a slug changes nothing; in particular slugifying is idempotent. */
  lemma SlugifyIdempotent(name: string)
    ensures Slugify(Slugify(name)) == Slugify(name)
  {
    var s := Slugify(name);
    SlugifyIsSlug(name);
    LowerDashedSlug(s);
    ReplaceAllowed(s, false);
    CollapseNoDouble(s);
    StripSlug(s);
  }

  /** A letter lower-cases to a lower-case letter. */
  lemma LowerLetter(c: char)
    requires ('a' <= c <= 'z') || IsUpper(c)
    ensures 'a' <= ToLower(c) <= 'z'
  {
  }

  /**
   * A name of letters and single inner spaces slugifies to its lower-cased
   * form with each space turned into '-'.
   */
  lemma SlugifyLowersAndDashes(name: string)
    requires forall k :: 0 <= k < |name| ==> ('a' <= name[k] <= 'z') || IsUpper(name[k]) || name[k] == ' '
    requires name != [] && name[0] != ' ' && name[|name| - 1] != ' '
    requires forall k :: 0 <= k < |name| - 1 ==> !(name[k] == ' ' && name[k + 1] == ' ')
    ensures Slugify(name) == LowerDashed(name)
  {
    var l := LowerDashed(name);
    LetterNameSlug(name);
    ReplaceAllowed(l, false);
    CollapseNoDouble(l);
    StripSlug(l);
  }

  /** Such a name lower-cases and dashes to a slug. */
  lemma LetterNameSlug(name: string)
    requires forall k :: 0 <= k < |name| ==> ('a' <= name[k] <= 'z') || IsUpper(name[k]) || name[k] == ' '
    requires name != [] && name[0] != ' ' && name[|name| - 1] != ' '
    requires forall k :: 0 <= k < |name| - 1 ==> !(name[k] == ' ' && name[k + 1] == ' ')
    ensures IsSlug(LowerDashed(name))
  {
    var l := LowerDashed(name);
    LetterNameAllowed(name);
    LetterNameNoDoubleDash(name);
    LowerDashedAt(name, 0);
    LowerDashedAt(name, |name| - 1);
    assert !Strippable(l[0]) && !Strippable(l[|l| - 1]);
  }

  lemma LetterNameAllowed(name: string)
    requires forall k :: 0 <= k < |name| ==> ('a' <= name[k] <= 'z') || IsUpper(name[k]) || name[k] == ' '
    ensures AllAllowed(LowerDashed(name))
  {
    var l := LowerDashed(name);
    forall k | 0 <= k < |l| ensures Allowed(l[k]) {
      LowerDashedAt(name, k);
    }
  }

  lemma LetterNameNoDoubleDash(name: string)
    requires forall k :: 0 <= k < |name| ==> ('a' <= name[k] <= 'z') || IsUpper(name[k]) || name[k] == ' '
    requires forall k :: 0 <= k < |name| - 1 ==> !(name[k] == ' ' && name[k + 1] == ' ')
    ensures NoDoubleDash(LowerDashed(name))
  {
    var l := LowerDashed(name);
    forall k | 0 <= k < |l| - 1 ensures !(l[k] == '-' && l[k + 1] == '-') {
      LowerDashedAt(name, k);
      LowerDashedAt(name, k + 1);
    }
  }

  /** One character of such a name: a space becomes '-', a letter a lower-case letter. */
  lemma LowerDashedAt(name: string, k: int)
    requires 0 <= k < |name|
    requires ('a' <= name[k] <= 'z') || IsUpper(name[k]) || name[k] == ' '
    ensures LowerDashed(name)[k] == '-' <==> name[k] == ' '
    ensures LowerDashed(name)[k] == '-' || 'a' <= LowerDashed(name)[k] <= 'z'
    ensures name[k] != ' ' ==> !Strippable(LowerDashed(name)[k])
  {
    if name[k] != ' ' {
      LowerLetter(name[k]);
    }
  }

  // ---------------------------------------------------------- branch numbers

  predicate IsDigit(c: char)
  {
    '0' <= c <= '9'
  }

  /** The value of a string of decimal digits. */
  function DigitsValue(s: string): nat
    requires forall k :: 0 <= k < |s| ==> IsDigit(s[k])
  {
    if s == [] then 0
    else
      assert IsDigit(s[|s| - 1]);
      DigitsValue(s[..|s| - 1]) * 10 + (s[|s| - 1] as int - '0' as int)
  }

  /** The length of the run of digits that starts `s`. */
  function DigitRun(s: string): (n: nat)
    ensures n <= |s|
    ensures forall k :: 0 <= k < n ==> IsDigit(s[k])
    ensures n < |s| ==> !IsDigit(s[n])
  {
    if s != [] && IsDigit(s[0]) then 1 + DigitRun(s[1..]) else 0
  }

  predicate HasPrefix(s: string, p: string)
  {
    |p| <= |s| && s[..|p|] == p
  }

  /**
   * The number in "<type>/#<digits>_...", if the text starts that way:
   * one or more digits, and an '_' right after them.
   */
  function MatchTyped(s: string, branchType: string): (r: Option<nat>)
  {
    var head := branchType + "/#";
    if !HasPrefix(s, head) then None
    else
      var rest := s[|head|..];
      var n := DigitRun(rest);
      if n == 0 || n == |rest| || rest[n] != '_' then None
      else Some(DigitsValue(rest[..n]))
  }

  /** The number a reference carries for the type, with or without the "origin/" remote prefix. */
  function BranchNumber(ref: string, branchType: string): (r: Option<nat>)
  {
    if HasPrefix(ref, "origin/") && MatchTyped(ref[7..], branchType).Some? then MatchTyped(ref[7..], branchType)
    else MatchTyped(ref, branchType)
  }

  /** The numbers the references carry for the type, in reference order. */
  function Numbers(refs: seq<string>, branchType: string): seq<nat>
  {
    if refs == [] then []
    else
      var before := Numbers(Pop(refs), branchType);
      match BranchNumber(Last(refs), branchType)
      case Some(n) => before + [n]
      case None => before
  }

  /** The largest number, or 0 for none. */
  function MaxOr0(ns: seq<nat>): (m: nat)
    ensures forall k :: 0 <= k < |ns| ==> ns[k] <= m
    ensures ns == [] ==> m == 0
    ensures ns != [] ==> exists k :: 0 <= k < |ns| && ns[k] == m
  {
    if ns == [] then 0
    else
      var init := ns[..|ns| - 1];
      var m := MaxOr0(init);
      assert forall k :: 0 <= k < |init| ==> init[k] == ns[k];
      if ns[|ns| - 1] >= m then ns[|ns| - 1] else m
  }

  /** Every matching reference's number occurs in the list, and every listed number comes from a matching reference. */
  lemma {:induction false} NumbersComplete(refs: seq<string>, branchType: string)
    ensures forall i :: 0 <= i < |refs| && BranchNumber(refs[i], branchType).Some? ==>
              BranchNumber(refs[i], branchType).value in Numbers(refs, branchType)
    ensures forall n :: n in Numbers(refs, branchType) ==>
              exists i :: 0 <= i < |refs| && BranchNumber(refs[i], branchType) == Some(n)
  {
    if refs != [] {
      NumbersComplete(Pop(refs), branchType);
      assert forall i :: 0 <= i < |refs| - 1 ==> Pop(refs)[i] == refs[i];
    }
  }

  /**
   * The next number: one more than the largest number the references
   * carry for the type, 1 when none does.
   */
  method NextBranchNumber(refs: seq<string>, branchType: string) returns (next: nat)
    ensures next == MaxOr0(Numbers(refs, branchType)) + 1
  {
    var numbers: seq<nat> := [];
    var i := 0;
    while i < |refs|
      invariant 0 <= i <= |refs|
      invariant numbers == Numbers(refs[..i], branchType)
    {
      assert Pop(refs[..i + 1]) == refs[..i];
      var m := BranchNumber(refs[i], branchType);
      if m.Some? {
        numbers := numbers + [m.value];
      }
      i := i + 1;
    }
    assert refs[..i] == refs;
    next := MaxOr0(numbers) + 1;
  }

  /** The next number is larger than every number in use, and is 1 or one more than a number in use. */
  lemma NextNumberIsFresh(refs: seq<string>, branchType: string)
    ensures forall i :: 0 <= i < |refs| && BranchNumber(refs[i], branchType).Some? ==>
              BranchNumber(refs[i], branchType).value < MaxOr0(Numbers(refs, branchType)) + 1
    ensures MaxOr0(Numbers(refs, branchType)) == 0
            || exists i :: 0 <= i < |refs| && BranchNumber(refs[i], branchType) == Some(MaxOr0(Numbers(refs, branchType)))
  {
    NumbersComplete(refs, branchType);
    var ns := Numbers(refs, branchType);
    if ns != [] {
      var k :| 0 <= k < |ns| && ns[k] == MaxOr0(ns);
      assert ns[k] in ns;
    }
  }

  // ------------------------------------------------------------ branch names

  function DigitChar(d: nat): (c: char)
    requires d < 10
    ensures IsDigit(c) && c as int - '0' as int == d
  {
    ('0' as int + d) as char
  }

  /** The decimal digits of `n`, without leading zeros. */
  function Decimal(n: nat): (r: string)
    ensures |r| >= 1 && forall k :: 0 <= k < |r| ==> IsDigit(r[k])
  {
    if n < 10 then [DigitChar(n)] else Decimal(n / 10) + [DigitChar(n % 10)]
  }

  function Zeros(k: nat): (r: string)
    ensures |r| == k && forall j :: 0 <= j < k ==> r[j] == '0'
  {
    if k == 0 then [] else Zeros(k - 1) + ['0']
  }

  /** The number zero-padded to at least 4 digits. */
  function Pad4(n: nat): (r: string)
    ensures |r| >= 4 && forall k :: 0 <= k < |r| ==> IsDigit(r[k])
    ensures |r| == if |Decimal(n)| < 4 then 4 else |Decimal(n)|
    ensures r[|r| - |Decimal(n)|..] == Decimal(n) && forall k :: 0 <= k < |r| - |Decimal(n)| ==> r[k] == '0'
  {
    var d := Decimal(n);
    if |d| < 4 then Zeros(4 - |d|) + d else d
  }

  lemma {:induction false} DecimalValue(n: nat)
    ensures DigitsValue(Decimal(n)) == n
  {
    if n >= 10 {
      DecimalValue(n / 10);
      var d := Decimal(n);
      assert d[..|d| - 1] == Decimal(n / 10);
    }
  }

  lemma {:induction false} LeadingZerosValue(k: nat, s: string)
    requires forall j :: 0 <= j < |s| ==> IsDigit(s[j])
    ensures forall j :: 0 <= j < |Zeros(k) + s| ==> IsDigit((Zeros(k) + s)[j])
    ensures DigitsValue(Zeros(k) + s) == DigitsValue(s)
    decreases |s|
  {
    var z := Zeros(k) + s;
    assert forall j :: 0 <= j < |z| ==> IsDigit(z[j]);
    if s == [] {
      assert z == Zeros(k);
      ZerosValue(k);
    } else {
      LeadingZerosValue(k, s[..|s| - 1]);
      assert z[..|z| - 1] == Zeros(k) + s[..|s| - 1];
    }
  }

  lemma {:induction false} ZerosValue(k: nat)
    ensures DigitsValue(Zeros(k)) == 0
  {
    if k > 0 {
      ZerosValue(k - 1);
      assert Zeros(k)[..k - 1] == Zeros(k - 1);
    }
  }

  /** The padded digits read back as the number. */
  lemma Pad4Value(n: nat)
    ensures DigitsValue(Pad4(n)) == n
  {
    DecimalValue(n);
    var d := Decimal(n);
    if |d| < 4 {
      LeadingZerosValue(4 - |d|, d);
    }
  }

  /** "<type>/#<number, at least 4 digits>_<slug>". */
  function BranchName(branchType: string, number: nat, slug: string): string
  {
    (branchType + "/#") + (Pad4(number) + ("_" + slug))
  }

  /** A created branch's name carries its number back: the numbering reads the name as it was written. */
  lemma BranchNameRoundTrip(branchType: string, number: nat, slug: string)
    requires branchType in TYPES
    ensures BranchNumber(BranchName(branchType, number, slug), branchType) == Some(number)
    ensures BranchNumber("origin/" + BranchName(branchType, number, slug), branchType) == Some(number)
  {
    var name := BranchName(branchType, number, slug);
    Pad4Value(number);
    MatchTypedName(branchType, Pad4(number), "_" + slug);
    LocalName(branchType, name);
    RemoteName(name);
  }

  /** "<type>/#<digits>_<slug>" matches with the digits' value. */
  lemma MatchTypedName(branchType: string, digits: string, tail: string)
    requires |digits| >= 1 && forall k :: 0 <= k < |digits| ==> IsDigit(digits[k])
    requires tail != [] && tail[0] == '_'
    ensures MatchTyped((branchType + "/#") + (digits + tail), branchType) == Some(DigitsValue(digits))
  {
    var head := branchType + "/#";
    var rest := digits + tail;
    var name := head + rest;
    assert name[..|head|] == head;
    assert name[|head|..] == rest;
    DigitRunPrefix(digits, tail);
    assert rest[..|digits|] == digits;
  }

  /** A name that starts with one of TYPES is not a remote reference. */
  lemma LocalName(branchType: string, name: string)
    requires branchType in TYPES
    requires |name| >= |branchType| && name[..|branchType|] == branchType
    ensures !HasPrefix(name, "origin/")
  {
    assert name[0] == branchType[0];
    assert branchType[0] == 'f' || branchType[0] == 'r';
    assert |name| >= 7 ==> name[..7][0] == name[0];
  }

  lemma RemoteName(name: string)
    ensures HasPrefix("origin/" + name, "origin/") && ("origin/" + name)[7..] == name
  {
    var remote := "origin/" + name;
    assert remote[..7] == "origin/";
  }

  /** The digit run of digits followed by a non-digit is exactly those digits. */
  lemma {:induction false} DigitRunPrefix(ds: string, tail: string)
    requires forall k :: 0 <= k < |ds| ==> IsDigit(ds[k])
    requires tail != [] && !IsDigit(tail[0])
    ensures DigitRun(ds + tail) == |ds|
    decreases |ds|
  {
    if ds != [] {
      assert (ds + tail)[1..] == ds[1..] + tail;
      DigitRunPrefix(ds[1..], tail);
    } else {
      assert ds + tail == tail;
    }
  }

  /**
   * The branch to create for a type and a free-form name, given the
   * existing references; None when the type is not one of TYPES.
   */
  method CreateBranchName(branchType: string, rawName: string, refs: seq<string>) returns (r: Option<string>)
    ensures branchType !in TYPES ==> r == None
    ensures branchType in TYPES ==>
              r == Some(BranchName(branchType, MaxOr0(Numbers(refs, branchType)) + 1, Slugify(rawName)))
  {
    if branchType !in TYPES {
      return None;
    }
    var slug := Slugify(rawName);
    var next := NextBranchNumber(refs, branchType);
    r := Some(BranchName(branchType, next, slug));
  }
}
