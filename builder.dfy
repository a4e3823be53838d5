/**
 * The branch selection of BuildLatestSkiaChromeBranch in
 * fiddle/go/builder/builder.go: among the Skia branches named
 * refs/heads/chrome/m<number>, pick the highest number, name the checkout
 * m<number> under the versions directory and refuse an existing checkout
 * unless forced. Listing branches, the file system, the download and the
 * build are inputs or left out.
 */
module Builder {
  import opened Wrappers
  import opened Text
  import Sort

  /** A Chrome branch: its number, its full ref name and its commit hash. */
  datatype Branch = Branch(N: nat, Name: string, Hash: string)

  /** What the build would fetch: the checkout's name and path and the branch. */
  datatype Selection = Selection(Name: string, Checkout: string, Branch: Branch)

  datatype BuildError =
    | NoBranches             // "There must be at least one branch."
    | NoAppropriateBranches  // "Failed to find any appropriate branches."
    | AlreadyExists          // AlreadyExistsErr

  /** The literal part of ^refs/heads/chrome/m([0-9]+)$. */
  const BranchPrefix: string := "refs/heads/chrome/m"

  /** The largest Go int (64-bit): strconv.Atoi fails above it. */
  const MaxInt: nat := 0x7fff_ffff_ffff_ffff

  /** The name matches ^refs/heads/chrome/m([0-9]+)$. */
  predicate MatchesBranch(name: string) {
    && |name| > |BranchPrefix|
    && name[..|BranchPrefix|] == BranchPrefix
    && AllDigits(name[|BranchPrefix|..])
  }

  /** strconv.Atoi on a non-empty string of digits. */
  function Atoi(digits: string): Option<nat>
    requires AllDigits(digits)
  {
    if DigitsValue(digits) <= MaxInt then Some(DigitsValue(digits)) else None
  }

  /** Leading zeros do not change what Atoi reads: "007" is 7, and any n that fits parses back. */
  lemma LeadingZerosIgnored(zeros: string, n: nat)
    requires forall i | 0 <= i < |zeros| :: zeros[i] == '0'
    ensures AllDigits(zeros + Decimal(n))
    ensures Atoi(zeros + Decimal(n)) == if n <= MaxInt then Some(n) else None
  {
    DecimalRoundTrip(n);
    DigitsValueLeadingZeros(zeros, Decimal(n));
  }

  /** The branch number of a ref: None when it does not match or its number does not parse. */
  function BranchNumber(name: string): Option<nat> {
    if MatchesBranch(name) then Atoi(name[|BranchPrefix|..]) else None
  }

  /** branchSlice.Less: higher numbers first. */
  predicate BranchLess(a: Branch, b: Branch) {
    a.N > b.N
  }

  lemma BranchLessIsStrictWeakOrder()
    ensures Sort.StrictWeakOrder(BranchLess)
  {
  }

  /** b is one of the branches, with its number and hash, and no branch has a higher number. */
  ghost predicate IsTop(branches: map<string, string>, b: Branch) {
    && b.Name in branches && BranchNumber(b.Name) == Some(b.N) && b.Hash == branches[b.Name]
    && forall k | k in branches && BranchNumber(k).Some? :: BranchNumber(k).value <= b.N
  }

  /** fmt.Sprintf("m%d", n). */
  function CheckoutName(n: nat): string {
    "m" + Decimal(n)
  }

  /**
   * The checkout directory for branch number n, path.Join(versions, CheckoutName(n)).
   * path.Join also cleans the path; the two agree because versions is itself the
   * result of path.Join(fiddleRoot, "versions"), already clean and ending in
   * "versions", and the checkout name is a single clean element.
   */
  function CheckoutFor(versions: string, n: nat): string {
    versions + "/" + CheckoutName(n)
  }

  /** The loop over the branch map, in map order: the branches whose names carry a number. */
  method NumberedBranches(branches: map<string, string>) returns (nums: seq<Branch>)
    ensures forall b | b in nums :: b.Name in branches && BranchNumber(b.Name) == Some(b.N) && b.Hash == branches[b.Name]
    ensures forall k | k in branches && BranchNumber(k).Some? :: Branch(BranchNumber(k).value, k, branches[k]) in nums
  {
    nums := [];
    var todo := branches.Keys;
    while todo != {}
      invariant todo <= branches.Keys
      invariant forall b | b in nums :: b.Name in branches && BranchNumber(b.Name) == Some(b.N) && b.Hash == branches[b.Name]
      invariant forall k | k in branches.Keys - todo && BranchNumber(k).Some? ::
        Branch(BranchNumber(k).value, k, branches[k]) in nums
      decreases todo
    {
      var name :| name in todo;
      todo := todo - {name};
      if !MatchesBranch(name) {
        continue;
      }
      var n := Atoi(name[|BranchPrefix|..]);
      if n.None? {
        // "Failed to parse branch number": logged and skipped.
        continue;
      }
      nums := nums + [Branch(n.value, name, branches[name])];
    }
  }

  /** sort.Sort(branchSlice(nums)): highest numbers first, the same branches. */
  method SortBranches(nums: seq<Branch>) returns (sorted: seq<Branch>)
    ensures Sort.SortedBy(sorted, BranchLess) && multiset(sorted) == multiset(nums)
  {
    var a := new Branch[|nums|](i requires 0 <= i < |nums| => nums[i]);
    assert a[..] == nums;
    BranchLessIsStrictWeakOrder();
    Sort.SortBy(a, BranchLess);
    sorted := a[..];
  }

  /** After the sort the first branch has the highest number. */
  lemma FirstIsHighest(sorted: seq<Branch>)
    requires Sort.SortedBy(sorted, BranchLess) && |sorted| > 0
    ensures forall b | b in sorted :: b.N <= sorted[0].N
  {
    forall b | b in sorted
      ensures b.N <= sorted[0].N
    {
      var j :| 0 <= j < |sorted| && sorted[j] == b;
      if j > 0 {
        assert !BranchLess(sorted[j], sorted[0]);
      }
    }
  }

  /**
   * The selection steps of BuildLatestSkiaChromeBranch. branches maps ref
   * names to hashes (GetSkiaBranches); isDir says whether a path is an
   * existing directory (os.Stat). The result names the highest-numbered
   * branch, unless there are no branches, none of them is numbered, or its
   * checkout exists and force is off.
   */
  method SelectBranch(versions: string, branches: map<string, string>, isDir: string -> bool, force: bool)
    returns (r: Result<Selection, BuildError>)
    ensures branches == map[] ==> r == Err(NoBranches)
    ensures branches != map[] && (forall k | k in branches :: BranchNumber(k).None?) ==> r == Err(NoAppropriateBranches)
    ensures (exists k | k in branches :: BranchNumber(k).Some?) ==> r.Ok? || r == Err(AlreadyExists)
    ensures r.Ok? ==>
      && IsTop(branches, r.value.Branch)
      && r.value.Name == CheckoutName(r.value.Branch.N)
      && r.value.Checkout == CheckoutFor(versions, r.value.Branch.N)
      && (force || !isDir(r.value.Checkout))
    ensures r == Err(AlreadyExists) ==>
      !force && exists b :: IsTop(branches, b) && isDir(CheckoutFor(versions, b.N))
  {
    if |branches| == 0 {
      return Err(NoBranches);
    }
    var nums := NumberedBranches(branches);
    var sorted := SortBranches(nums);
    if |sorted| == 0 {
      assert nums == [] by {
        assert |nums| == |multiset(nums)| == |multiset(sorted)| == 0;
      }
      return Err(NoAppropriateBranches);
    }
    var top := sorted[0];
    assert top in multiset(nums);
    FirstIsHighest(sorted);
    forall k | k in branches && BranchNumber(k).Some?
      ensures BranchNumber(k).value <= top.N
    {
      assert Branch(BranchNumber(k).value, k, branches[k]) in multiset(sorted);
    }
    assert IsTop(branches, top);
    var name := CheckoutName(top.N);
    var checkout := CheckoutFor(versions, top.N);
    if isDir(checkout) && !force {
      return Err(AlreadyExists);
    }
    return Ok(Selection(name, checkout, top));
  }

  /** The checkout name drops leading zeros: digits only, none leading, reading back as the number. */
  lemma CheckoutNameCanonical(n: nat)
    ensures var name := CheckoutName(n);
      && name[0] == 'm' && AllDigits(name[1..]) && |name| >= 2
      && (n > 0 ==> name[1] != '0')
      && DigitsValue(name[1..]) == n
  {
    DecimalRoundTrip(n);
    assert CheckoutName(n)[1..] == Decimal(n);
  }

  /** Every number Go can hold names a branch that parses back to it. */
  lemma BranchNumberRoundTrip(n: nat)
    requires n <= MaxInt
    ensures BranchNumber(BranchPrefix + Decimal(n)) == Some(n)
  {
    DecimalRoundTrip(n);
    var name := BranchPrefix + Decimal(n);
    assert name[..|BranchPrefix|] == BranchPrefix;
    assert name[|BranchPrefix|..] == Decimal(n);
  }

  /** A number too large for Go's int leaves a matching branch out. */
  lemma OverflowingNumberSkipped(digits: string)
    requires |digits| > 0 && AllDigits(digits) && DigitsValue(digits) > MaxInt
    ensures MatchesBranch(BranchPrefix + digits) && BranchNumber(BranchPrefix + digits).None?
  {
    var name := BranchPrefix + digits;
    assert name[..|BranchPrefix|] == BranchPrefix;
    assert name[|BranchPrefix|..] == digits;
  }
}
