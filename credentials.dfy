/** The account name typed at the credential prompt, either
    "domain\username" or a bare "username" (get_credentials). */
module Credentials {
  import opened Common

  datatype Account = Account(domain: string, username: string)

  /** Splits at the first backslash; without one the domain is empty and
      the whole input is the user name. */
  function SplitAccount(input: string): (a: Account)
    ensures '\\' in input ==> a.domain + "\\" + a.username == input && '\\' !in a.domain
    ensures '\\' !in input ==> a == Account("", input)
  {
    var i := FirstIndex(input, '\\');
    FirstIndexFinds(input, '\\');
    if i < |input| then
      assert input == input[..i] + "\\" + input[i + 1..];
      Account(input[..i], input[i + 1..])
    else
      Account("", input)
  }

  /** Joining a domain and a user name with a backslash and splitting again
      gives both back; the user name may itself hold backslashes. */
  lemma JoinSplit(domain: string, username: string)
    requires '\\' !in domain
    ensures SplitAccount(domain + "\\" + username) == Account(domain, username)
  {
    var s := domain + "\\" + username;
    assert s[|domain|] == '\\';
    var i := FirstIndex(s, '\\');
    assert s[..|domain|] == domain;
    assert s[..i] == domain && s[i + 1..] == username;
  }
}
