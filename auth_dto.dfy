/** `AuthData`, the login record: a mutable bean filled from the user row, then given its tokens. */
module AuthDto {
  import opened Wrappers
  import opened Strs
  import opened AccountStatus
  import opened Mappers

  class AuthData {
    var userId: int
    var username: string
    var hashedPassword: string
    var nickname: string
    var status: Option<AccountStatus>
    var authorities: seq<string>
    var accessToken: Option<string>
    var refreshToken: Option<string>

    /**
     * The MyBatis constructor: the columns are copied, the comma list of authorities is
     * split into trimmed non-empty pieces, and the token fields stay unset.
     */
    constructor FromRow(row: AuthRow)
      ensures userId == row.userId && username == row.username && hashedPassword == row.hashedPassword
      ensures nickname == row.nickname && status == row.status
      ensures authorities == SplitCommaList(row.authorities)
      ensures accessToken.None? && refreshToken.None?
    {
      userId := row.userId;
      username := row.username;
      hashedPassword := row.hashedPassword;
      nickname := row.nickname;
      status := row.status;
      authorities := SplitCommaList(row.authorities);
      accessToken := None;
      refreshToken := None;
    }

    /** No authority is empty, holds a comma, or has blanks around it. */
    ghost predicate CleanAuthorities()
      reads this
    {
      forall i :: 0 <= i < |authorities| ==> authorities[i] != [] && ',' !in authorities[i] && IsTrimmed(authorities[i])
    }

    method SetAccessToken(token: string)
      modifies this
      ensures accessToken == Some(token) && refreshToken == old(refreshToken)
      ensures userId == old(userId) && username == old(username) && hashedPassword == old(hashedPassword)
      ensures nickname == old(nickname) && status == old(status) && authorities == old(authorities)
    {
      accessToken := Some(token);
    }

    method SetRefreshToken(token: string)
      modifies this
      ensures refreshToken == Some(token) && accessToken == old(accessToken)
      ensures userId == old(userId) && username == old(username) && hashedPassword == old(hashedPassword)
      ensures nickname == old(nickname) && status == old(status) && authorities == old(authorities)
    {
      refreshToken := Some(token);
    }
  }

  /** Whatever the stored column holds, the record built from it has clean authorities. */
  lemma FromRowClean(a: AuthData, row: AuthRow)
    requires a.authorities == SplitCommaList(row.authorities)
    ensures a.CleanAuthorities()
  {
  }
}
