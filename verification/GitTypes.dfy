// Object ids and tree entries, as the git server gives them.
module GitTypes {
  type Sha = string

  // No object has this id: in a push it stands for a ref that is not there.
  const ZERO_SHA: Sha := "0000000000000000000000000000000000000000"

  predicate IsSha(s: string) {
    |s| == 40 && forall i | 0 <= i < 40 :: '0' <= s[i] <= '9' || 'a' <= s[i] <= 'f'
  }

  datatype Kind = Tree | Blob | Commit

  datatype Entry = Entry(name: string, kind: Kind, mode: string, hash: Sha)
}
