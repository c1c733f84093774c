/** The four AWS format checks selected by the `v_aws_*` tag options. Each regular
    expression of the source is restated as explicit character predicates, and a
    declarative description of the accepted strings is proved equivalent to each check. */
module Validators {
  import opened Wrappers
  import Text
  import Options
  import Numbers

  datatype Validator = Region | AccountId | BucketName | RoleArn

  /** Why a value was rejected; each carries the rejected value. */
  datatype Failure =
    | BadRegion(value: string)
    | BadAccountId(value: string)
    | BadBucketPattern(value: string)    // length or character set
    | BadBucketEdge(value: string)       // starts or ends with '.' or '-'
    | BadBucketPeriods(value: string)    // contains ".."
    | BadRoleArn(value: string)

  predicate IsLowerLetter(c: char) { 'a' <= c <= 'z' }
  predicate IsLetter(c: char) { 'a' <= c <= 'z' || 'A' <= c <= 'Z' }

  // ---------------------------------------------------------------- region

  predicate IsRegionWordChar(c: char) { IsLowerLetter(c) || c == '-' }

  /** The index of the last occurrence of `c` in `s`, or -1. */
  function LastIndexOf(s: string, c: char): (r: int)
    ensures -1 <= r < |s|
    ensures r >= 0 ==> s[r] == c
    ensures forall k :: r < k < |s| ==> s[k] != c
  {
    if s == [] then -1
    else if s[|s| - 1] == c then |s| - 1
    else LastIndexOf(s[..|s| - 1], c)
  }

  /** `^[a-z]{2}-[a-z-]+-[0-9]+$`, stated with the index `k` of the hyphen before the digits. */
  ghost predicate RegionSplitAt(s: string, k: int)
  {
    |s| >= 3 && IsLowerLetter(s[0]) && IsLowerLetter(s[1]) && s[2] == '-'
    && 3 < k < |s| - 1 && s[k] == '-'
    && (forall j :: 3 <= j < k ==> IsRegionWordChar(s[j]))
    && (forall j :: k < j < |s| ==> Numbers.IsDigit(s[j]))
  }

  ghost predicate RegionPattern(s: string)
  {
    exists k :: RegionSplitAt(s, k)
  }

  /** vAwsRegion: the digit run is what follows the last hyphen. */
  function VAwsRegion(s: string): (r: Outcome<Failure>)
    ensures r == Pass || r == Fail(BadRegion(s))
  {
    if |s| >= 3 && IsLowerLetter(s[0]) && IsLowerLetter(s[1]) && s[2] == '-' then
      var k := LastIndexOf(s, '-');
      if 3 < k < |s| - 1 && (forall j :: 3 <= j < k ==> IsRegionWordChar(s[j]))
                         && (forall j :: k < j < |s| ==> Numbers.IsDigit(s[j]))
      then Pass
      else Fail(BadRegion(s))
    else Fail(BadRegion(s))
  }

  /** The region check accepts exactly the strings the region pattern matches. */
  lemma RegionMatchesPattern(s: string)
    ensures VAwsRegion(s).Pass? <==> RegionPattern(s)
  {
    if VAwsRegion(s).Pass? {
      assert RegionSplitAt(s, LastIndexOf(s, '-'));
    }
    if RegionPattern(s) {
      var k :| RegionSplitAt(s, k);
      var last := LastIndexOf(s, '-');
      assert last == k;
    }
  }

  lemma RegionExamples()
    ensures VAwsRegion("us-east-1").Pass?
    ensures VAwsRegion("invalid-region").Fail?
  {
    assert RegionSplitAt("us-east-1", 7);
    RegionMatchesPattern("us-east-1");
  }

  // ---------------------------------------------------------------- account id

  /** vAwsAccountID: `^\d{12}$`. */
  function VAwsAccountID(s: string): (r: Outcome<Failure>)
    ensures r == Pass || r == Fail(BadAccountId(s))
    ensures r.Pass? <==> |s| == 12 && forall i :: 0 <= i < 12 ==> '0' <= s[i] <= '9'
  {
    if |s| == 12 && Numbers.AllDigits(s) then Pass else Fail(BadAccountId(s))
  }

  // ---------------------------------------------------------------- bucket name

  predicate IsBucketChar(c: char) { IsLowerLetter(c) || Numbers.IsDigit(c) || c == '.' || c == '-' }

  /** `^[a-z0-9.-]{3,63}$`. */
  predicate BucketPattern(s: string)
  {
    3 <= |s| <= 63 && forall i :: 0 <= i < |s| ==> IsBucketChar(s[i])
  }

  predicate IsEdgeChar(c: char) { c == '.' || c == '-' }

  ghost predicate HasAdjacentPeriods(s: string)
  {
    exists i :: 0 <= i < |s| - 1 && s[i] == '.' && s[i + 1] == '.'
  }

  /** The rules the bucket check enforces, stated without its order. */
  ghost predicate BucketRules(s: string)
  {
    BucketPattern(s) && !IsEdgeChar(s[0]) && !IsEdgeChar(s[|s| - 1]) && !HasAdjacentPeriods(s)
  }

  lemma ContainsDoublePeriod(s: string)
    ensures Text.Contains(s, "..") <==> HasAdjacentPeriods(s)
  {
    if Text.Contains(s, "..") {
      var i :| Text.OccursAt(s, "..", i);
      assert s[i] == s[i..i + 2][0] && s[i + 1] == s[i..i + 2][1];
    }
    if HasAdjacentPeriods(s) {
      var i :| 0 <= i < |s| - 1 && s[i] == '.' && s[i + 1] == '.';
      assert Text.OccursAt(s, "..", i);
    }
  }

  /** vAwsBucketName: three checks in order, the first failing one reported. */
  function VAwsBucketName(s: string): (r: Outcome<Failure>)
    ensures r.Fail? && r.error.BadBucketPattern? <==> !BucketPattern(s)
    ensures r.Fail? && r.error.BadBucketEdge? <==>
              BucketPattern(s) && (IsEdgeChar(s[0]) || IsEdgeChar(s[|s| - 1]))
    ensures r.Fail? && r.error.BadBucketPeriods? <==>
              BucketPattern(s) && !IsEdgeChar(s[0]) && !IsEdgeChar(s[|s| - 1]) && HasAdjacentPeriods(s)
    ensures r.Fail? ==> r.error.value == s
  {
    ContainsDoublePeriod(s);
    if !BucketPattern(s) then Fail(BadBucketPattern(s))
    else if IsEdgeChar(s[0]) || IsEdgeChar(s[|s| - 1]) then Fail(BadBucketEdge(s))
    else if Text.Contains(s, "..") then Fail(BadBucketPeriods(s))
    else Pass
  }

  /** The bucket check accepts exactly the names that keep every rule. */
  lemma BucketAcceptsExactly(s: string)
    ensures VAwsBucketName(s).Pass? <==> BucketRules(s)
  {
  }

  lemma BucketExamples()
    ensures VAwsBucketName("my-s3-bucket").Pass?
    ensures VAwsBucketName("Invalid_Bucket_Name") == Fail(BadBucketPattern("Invalid_Bucket_Name"))
  {
    var good := "my-s3-bucket";
    assert BucketPattern(good);
    assert !HasAdjacentPeriods(good);
    assert !IsBucketChar("Invalid_Bucket_Name"[0]);
  }

  // ---------------------------------------------------------------- role ARN

  const ArnPrefix := "arn:aws:iam::"
  const RoleInfix := ":role/"

  /** The class `[a-zA-Z_+=,.@\-]` of the role-name part: letters and six punctuation
      characters, and no digits. */
  predicate IsRoleNameChar(c: char)
  {
    IsLetter(c) || c == '_' || c == '+' || c == '=' || c == ',' || c == '.' || c == '@' || c == '-'
  }

  predicate IsRoleName(s: string)
  {
    1 <= |s| <= 64 && forall i :: 0 <= i < |s| ==> IsRoleNameChar(s[i])
  }

  /** vAwsRoleArn: `^arn:aws:iam::\d{12}:role\/[a-zA-Z_+=,.@\-]{1,64}$`, checked by position:
      13 prefix characters, 12 digits, 6 infix characters, then the role name. */
  function VAwsRoleArn(s: string): (r: Outcome<Failure>)
    ensures r == Pass || r == Fail(BadRoleArn(s))
    ensures r.Pass? ==> 32 <= |s| <= 95
  {
    if |s| >= 31 && s[..13] == ArnPrefix && Numbers.AllDigits(s[13..25]) && s[25..31] == RoleInfix
       && IsRoleName(s[31..])
    then Pass
    else Fail(BadRoleArn(s))
  }

  /** An ARN built from an account id and a role name passes exactly when the account id
      passes its own check and the role name is 1 to 64 characters of the role-name class. */
  lemma RoleArnComposition(account: string, role: string)
    ensures VAwsRoleArn(ArnPrefix + account + RoleInfix + role).Pass?
            <==> VAwsAccountID(account).Pass? && IsRoleName(role)
  {
    var s := ArnPrefix + account + RoleInfix + role;
    var colon := 13 + |account|;  // where the infix starts
    assert s[colon] == ':';
    // a colon anywhere but at index 25 breaks the digit run, the infix or the role name
    assert |account| < 12 && |s| >= 25 ==> s[13..25][|account|] == ':';
    assert 12 < |account| < 18 && |s| >= 31 ==> s[25..31][|account| - 12] == ':';
    assert 18 <= |account| ==> s[31..][|account| - 18] == ':';
    if |account| == 12 {
      assert s[..13] == ArnPrefix;
      assert s[13..25] == account;
      assert s[25..31] == RoleInfix;
      assert s[31..] == role;
    }
  }

  /** Every accepted ARN decomposes into prefix, a valid account id, infix and role name. */
  lemma RoleArnDecomposition(s: string)
    requires VAwsRoleArn(s).Pass?
    ensures s == ArnPrefix + s[13..25] + RoleInfix + s[31..]
    ensures VAwsAccountID(s[13..25]).Pass? && IsRoleName(s[31..])
  {
    assert s == s[..13] + s[13..25] + s[25..31] + s[31..];
  }

  /** An ARN with a 12-digit account and a letters-only role name is accepted. */
  lemma RoleArnAccepted()
    ensures VAwsRoleArn("arn:aws:iam::123456789012:role/MyRole").Pass?
  {
    var s := "arn:aws:iam::123456789012:role/MyRole";
    assert s[..13] == ArnPrefix;
    forall i | 0 <= i < 12 ensures Numbers.IsDigit(s[13..25][i]) {
      assert s[13..25][i] == s[13 + i];
    }
    assert s[25..31] == RoleInfix;
    assert s[31..] == "MyRole";
  }

  /** A digit in the role name is rejected, although IAM role names may contain digits. */
  lemma RoleNameDigitRejected()
    ensures VAwsRoleArn("arn:aws:iam::123456789012:role/Role1").Fail?
  {
    var s := "arn:aws:iam::123456789012:role/Role1";
    assert |s| == 36 && s[31..][4] == '1';
    assert !IsRoleNameChar(s[31..][4]);
  }

  // ---------------------------------------------------------------- table

  /** awsValidationMap: the validator each `v_aws_*` keyword selects. */
  const AwsValidationMap: map<string, Validator> := map[
    Options.AwsRegion := Region,
    Options.AwsAccountId := AccountId,
    Options.AwsBucketName := BucketName,
    Options.AwsRoleArn := RoleArn
  ]

  function Validate(v: Validator, s: string): Outcome<Failure>
  {
    match v
    case Region => VAwsRegion(s)
    case AccountId => VAwsAccountID(s)
    case BucketName => VAwsBucketName(s)
    case RoleArn => VAwsRoleArn(s)
  }

  /** The table maps exactly the four validator keywords, one-to-one onto the four checks. */
  lemma ValidationMapOneToOne()
    ensures AwsValidationMap.Keys
            == {Options.AwsRegion, Options.AwsAccountId, Options.AwsRoleArn, Options.AwsBucketName}
    ensures AwsValidationMap.Values == {Region, AccountId, BucketName, RoleArn}
    ensures forall k1, k2 :: k1 in AwsValidationMap && k2 in AwsValidationMap && k1 != k2
              ==> AwsValidationMap[k1] != AwsValidationMap[k2]
  {
    assert AwsValidationMap[Options.AwsRegion] == Region;
    assert AwsValidationMap[Options.AwsAccountId] == AccountId;
    assert AwsValidationMap[Options.AwsBucketName] == BucketName;
    assert AwsValidationMap[Options.AwsRoleArn] == RoleArn;
  }
}
