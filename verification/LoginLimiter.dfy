/**
  The login attempt limiter: `AuthenticateUser` checks how many failures the store
  holds for the username, asks the Grafana database and LDAP, and records one more
  failure when the credentials were wrong.
*/
module LoginLimiter {

  const MAX_INVALID_LOGIN_ATTEMPTS: nat := 5
  const LOGIN_ATTEMPTS_WINDOW: nat := 300   // seconds
  const CLEANUP_AGE: nat := 600             // seconds

  datatype DbError = DbUserNotFound | DbInvalidCredentials | DbUserDisabled | DbOther(message: string)

  datatype DbAnswer = DbOk | DbFailed(error: DbError)

  datatype LdapAnswer =
    | LdapDisabled
    | LdapOk
    | LdapInvalidCredentials
    | LdapOther(message: string)

  datatype Answer =
    | Welcome
    | ErrTooManyLoginAttempts
    | ErrPasswordEmpty
    | ErrInvalidCredentials
    | ErrNoAuthProvider
    | ErrStore
    | FromDb(error: DbError)
    | FromLdap(message: string)

  /** One row of the attempt table; `call` names the call that inserted it. */
  datatype Row = Row(username: string, created: int, call: nat)

  /** The rows a count query since `since` selects for a user, as row numbers. */
  ghost function Matching(rows: seq<Row>, from: nat, username: string, since: int): set<nat>
  {
    set i: nat | i < |rows| && from <= i && rows[i].username == username && rows[i].created >= since
  }

  // ---------------------------------------------------------------- one call

  /** The database decides alone: it accepts the password or fails for a reason of its own. */
  predicate DbDecides(grafanaLogin: bool, db: DbAnswer)
  {
    grafanaLogin && (db == DbOk || (db.DbFailed? && db.error.DbOther?))
  }

  /** How the database and LDAP answers combine, given whether the Grafana login form is on. */
  function Combine(grafanaLogin: bool, db: DbAnswer, ldap: LdapAnswer): (answer: Answer)
    ensures answer == Welcome <==>
      (grafanaLogin && db == DbOk) || (!DbDecides(grafanaLogin, db) && ldap == LdapOk)
    // A wrong password is the answer only when no enabled provider let the user in.
    ensures answer == ErrInvalidCredentials <==>
      && !DbDecides(grafanaLogin, db)
      && (|| (ldap == LdapDisabled && grafanaLogin && db == DbFailed(DbInvalidCredentials))
          || (ldap == LdapInvalidCredentials && !(grafanaLogin && db == DbFailed(DbUserDisabled))))
    ensures answer == ErrNoAuthProvider <==> !grafanaLogin && ldap == LdapDisabled
    ensures forall m :: answer == FromLdap(m) <==> !DbDecides(grafanaLogin, db) && ldap == LdapOther(m)
    ensures forall e :: answer == FromDb(e) <==>
      && grafanaLogin && db == DbFailed(e)
      && (|| e.DbOther?
          || (ldap == LdapDisabled && e != DbInvalidCredentials)
          || (ldap == LdapInvalidCredentials && e == DbUserDisabled))
    ensures answer !in {ErrTooManyLoginAttempts, ErrPasswordEmpty, ErrStore}
  {
    if grafanaLogin && (db.DbOk? || db.error.DbOther?) then
      if db.DbOk? then Welcome else FromDb(db.error)
    else if ldap.LdapOk? then Welcome
    else if ldap.LdapOther? then FromLdap(ldap.message)
    else if ldap.LdapInvalidCredentials? then
      if grafanaLogin && db.error.DbUserDisabled? then FromDb(DbUserDisabled) else ErrInvalidCredentials
    else if !grafanaLogin then ErrNoAuthProvider
    else if db.error.DbInvalidCredentials? then ErrInvalidCredentials
    else FromDb(db.error)
  }

  /** At least five failures of the user in the last five minutes. */
  ghost predicate TooMany(rows: seq<Row>, username: string, now: int)
  {
    |set i: nat | i < |rows| && rows[i].username == username && now - 300 <= rows[i].created| >= 5
  }

  /** The call gets as far as the providers. */
  ghost predicate Asked(rows: seq<Row>, username: string, password: string, protectionOff: bool, countFails: bool, now: int)
  {
    password != "" && (protectionOff || (!countFails && !TooMany(rows, username, now)))
  }

  lemma TooManyMatch(rows: seq<Row>, username: string, now: int)
    ensures TooMany(rows, username, now) <==>
      |Matching(rows, 0, username, now - LOGIN_ATTEMPTS_WINDOW)| >= MAX_INVALID_LOGIN_ATTEMPTS
  {
    assert (set i: nat | i < |rows| && rows[i].username == username && now - 300 <= rows[i].created) ==
      Matching(rows, 0, username, now - LOGIN_ATTEMPTS_WINDOW);
  }

  class AuthenticatorService {
    var rows: seq<Row>
    var authModule: string

    constructor()
      ensures rows == []
    {
      rows := [];
      authModule := "";
    }

    /** The count query; `failing` is a store that answers with an error. */
    method ValidateLoginAttempts(username: string, protectionOff: bool, failing: bool, now: int)
      returns (verdict: Answer)
      ensures verdict in {Welcome, ErrStore, ErrTooManyLoginAttempts}
      ensures verdict == ErrTooManyLoginAttempts <==> !protectionOff && !failing && TooMany(rows, username, now)
      ensures verdict == ErrStore <==> !protectionOff && failing
    {
      if protectionOff {
        return Welcome;
      }
      if failing {
        return ErrStore;
      }
      var count := 0;
      for i := 0 to |rows|
        invariant count == |Matching(rows[..i], 0, username, now - LOGIN_ATTEMPTS_WINDOW)|
      {
        MatchingGrows(rows[..i], rows[i], username, now - LOGIN_ATTEMPTS_WINDOW);
        assert rows[..i + 1] == rows[..i] + [rows[i]];
        if rows[i].username == username && rows[i].created >= now - LOGIN_ATTEMPTS_WINDOW {
          count := count + 1;
        }
      }
      assert rows[..|rows|] == rows;
      TooManyMatch(rows, username, now);
      return if count >= MAX_INVALID_LOGIN_ATTEMPTS then ErrTooManyLoginAttempts else Welcome;
    }

    /** The whole call. The provider answers, the clock and the store's health are inputs. */
    method AuthenticateUser(username: string, password: string, grafanaLogin: bool, protectionOff: bool,
                            db: DbAnswer, ldap: LdapAnswer, countFails: bool, saveFails: bool,
                            now: int, later: int, call: nat)
      returns (answer: Answer)
      requires now <= later
      modifies this
      // What keeps the call from the providers, each with its own answer.
      ensures answer == ErrStore <==> !protectionOff && countFails
      ensures answer == ErrTooManyLoginAttempts <==>
        !protectionOff && !countFails && TooMany(old(rows), username, now)
      ensures answer == ErrPasswordEmpty <==>
        password == "" && (protectionOff || (!countFails && !TooMany(old(rows), username, now)))
      // Otherwise the first enabled provider that decides.
      ensures answer == Welcome <==>
        && Asked(old(rows), username, password, protectionOff, countFails, now)
        && ((grafanaLogin && db == DbOk) || (!DbDecides(grafanaLogin, db) && ldap == LdapOk))
      ensures answer == ErrInvalidCredentials <==>
        && Asked(old(rows), username, password, protectionOff, countFails, now)
        && !DbDecides(grafanaLogin, db)
        && (|| (ldap == LdapDisabled && grafanaLogin && db == DbFailed(DbInvalidCredentials))
            || (ldap == LdapInvalidCredentials && !(grafanaLogin && db == DbFailed(DbUserDisabled))))
      ensures Asked(old(rows), username, password, protectionOff, countFails, now) ==>
        answer == Combine(grafanaLogin, db, ldap)
      ensures authModule ==
        if !Asked(old(rows), username, password, protectionOff, countFails, now) then old(authModule)
        else if DbDecides(grafanaLogin, db) then "grafana"
        else if ldap != LdapDisabled then "ldap"
        else old(authModule)
      // With the protection on and a healthy store, a failure is recorded exactly
      // when the caller is told the credentials are invalid.
      ensures !protectionOff && !saveFails ==>
        rows == if answer == ErrInvalidCredentials then old(rows) + [Row(username, later, call)] else old(rows)
      ensures protectionOff || saveFails ==> rows == old(rows)
    {
      var verdict := ValidateLoginAttempts(username, protectionOff, countFails, now);
      if verdict != Welcome {
        return verdict;
      }
      if password == "" {
        return ErrPasswordEmpty;
      }
      var err := DbOk;
      if grafanaLogin {
        err := db;
      }
      if grafanaLogin && (err.DbOk? || err.error.DbOther?) {
        authModule := "grafana";
        return if err.DbOk? then Welcome else FromDb(err.error);
      }
      var wrong := err == DbFailed(DbInvalidCredentials);
      if !ldap.LdapDisabled? {
        authModule := "ldap";
        if ldap.LdapOk? {
          return Welcome;
        }
        if ldap.LdapOther? {
          return FromLdap(ldap.message);
        }
        if err != DbFailed(DbUserDisabled) {
          wrong := true;
        }
      }
      if wrong {
        if !protectionOff && !saveFails {
          rows := rows + [Row(username, later, call)];
        }
        return ErrInvalidCredentials;
      }
      if !grafanaLogin && ldap.LdapDisabled? {
        return ErrNoAuthProvider;
      }
      return FromDb(err.error);
    }
  }

  lemma MatchingGrows(rows: seq<Row>, row: Row, username: string, since: int)
    ensures |Matching(rows + [row], 0, username, since)| ==
      |Matching(rows, 0, username, since)| +
      if row.username == username && row.created >= since then 1 else 0
  {
    var before, after := Matching(rows, 0, username, since), Matching(rows + [row], 0, username, since);
    assert after == if row.username == username && row.created >= since then before + {|rows|} else before;
  }
}
