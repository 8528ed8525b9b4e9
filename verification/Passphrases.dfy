/** The passphrase policy of the vault and of accounts, for ASCII passphrases. */
module Passphrases {
  predicate IsLower(c: char) { 'a' <= c <= 'z' }
  predicate IsUpper(c: char) { 'A' <= c <= 'Z' }
  predicate IsDigit(c: char) { '0' <= c <= '9' }

  predicate StrongPassphrase(p: string) {
    && |p| >= 12
    && (exists i :: 0 <= i < |p| && IsLower(p[i]))
    && (exists i :: 0 <= i < |p| && IsUpper(p[i]))
    && (exists i :: 0 <= i < |p| && IsDigit(p[i]))
    && (exists i :: 0 <= i < |p| && !IsLower(p[i]) && !IsUpper(p[i]) && !IsDigit(p[i]))
  }

  /** At least twelve characters, of all four kinds. */
  ghost predicate MeetsPolicy(p: string) {
    && |p| >= 12
    && (exists c :: c in p && 'a' <= c <= 'z')
    && (exists c :: c in p && 'A' <= c <= 'Z')
    && (exists c :: c in p && '0' <= c <= '9')
    && (exists c :: c in p && !('a' <= c <= 'z') && !('A' <= c <= 'Z') && !('0' <= c <= '9'))
  }

  lemma StrongMeetsPolicy(p: string)
    ensures StrongPassphrase(p) <==> MeetsPolicy(p)
  {
    if StrongPassphrase(p) {
      var i :| 0 <= i < |p| && IsLower(p[i]);
      var j :| 0 <= j < |p| && IsUpper(p[j]);
      var k :| 0 <= k < |p| && IsDigit(p[k]);
      var l :| 0 <= l < |p| && !IsLower(p[l]) && !IsUpper(p[l]) && !IsDigit(p[l]);
      assert p[i] in p && p[j] in p && p[k] in p && p[l] in p;
    }
  }
}
