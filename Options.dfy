/** The option keywords of the `env` tag mini-language. */
module Options {
  import Text

  const Name := "name"
  const Required := "required"
  const Default := "default"
  const NoTrim := "notrim"
  const Lower := "lower"
  const Upper := "upper"
  const Min := "min"
  const Max := "max"

  const AwsRegion := "v_aws_region"
  const AwsAccountId := "v_aws_account_id"
  const AwsRoleArn := "v_aws_role_arn"
  const AwsBucketName := "v_aws_bucket_name"

  const GeneralKeywords: seq<string> := [Name, Required, Default, NoTrim, Lower, Upper, Min, Max]
  const ValidatorKeywords: seq<string> := [AwsRegion, AwsAccountId, AwsRoleArn, AwsBucketName]

  /** The twelve option keywords of the tag. */
  const AllKeywords: seq<string> := GeneralKeywords + ValidatorKeywords

  /** Every keyword is already in the form the tag parser gives a key (lower case, no
      surrounding white space), so a key written in any ASCII case can equal it. */
  lemma KeywordsNormalized()
    ensures forall k <- AllKeywords :: Text.ToLower(k) == k && Text.TrimSpace(k) == k
  {
    KeywordsAreWords();
    forall k <- AllKeywords ensures Text.ToLower(k) == k && Text.TrimSpace(k) == k {
      WordNormalized(k);
    }
  }

  /** Each keyword is lower-case letters and underscores. */
  lemma KeywordsAreWords()
    ensures forall k <- AllKeywords :: IsWord(k)
  {
    GeneralKeywordsAreWords();
    ValidatorKeywordsAreWords();
  }

  lemma GeneralKeywordsAreWords()
    ensures forall k <- GeneralKeywords :: IsWord(k)
  {
    forall k <- GeneralKeywords ensures IsWord(k) {
    }
  }

  lemma ValidatorKeywordsAreWords()
    ensures forall k <- ValidatorKeywords :: IsWord(k)
  {
    forall k <- ValidatorKeywords ensures IsWord(k) {
    }
  }

  predicate IsWord(k: string)
  {
    k != [] && forall c <- k :: 'a' <= c <= 'z' || c == '_'
  }

  lemma WordNormalized(k: string)
    requires IsWord(k)
    ensures Text.ToLower(k) == k && Text.TrimSpace(k) == k
  {
    forall i | 0 <= i < |k| ensures Text.LowerChar(k[i]) == k[i] {
      assert k[i] in k;
    }
    Text.LowerCaseIsFixed(k);
    WordTrimmed(k);
  }

  lemma WordTrimmed(k: string)
    requires IsWord(k)
    ensures Text.TrimSpace(k) == k
  {
    assert k[0] in k;
    assert !Text.IsSpace(k[0]);
    assert Text.TrimLeft(k) == k;
    assert k[|k| - 1] in k;
    assert !Text.IsSpace(k[|k| - 1]);
    assert Text.TrimRight(k) == k;
  }

  /** No keyword contains `=`, the option separator `,` or the list separator `|`. */
  lemma KeywordsHaveNoDelimiters()
    ensures forall k <- AllKeywords :: '=' !in k && ',' !in k && '|' !in k
  {
    KeywordsAreWords();
  }

  /** The twelve keywords are pairwise distinct. */
  lemma KeywordsDistinct()
    ensures forall i, j :: 0 <= i < j < |AllKeywords| ==> AllKeywords[i] != AllKeywords[j]
  {
  }
}
