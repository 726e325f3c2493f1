/** The per-event filters that run before the scope check (sleat-analyze.rb:103-123). */
module Filters {
  import opened Outcomes
  import opened Strings

  /**
   * `entry.split("\\", 2).last` for a non-blank entry: the text after the first backslash
   * ("CORP\alice" gives "alice"), or the whole entry when it has none.
   */
  function UserPart(entry: string): (u: string)
    ensures |u| <= |entry| && entry[|entry| - |u|..] == u
    ensures '\\' !in entry ==> u == entry
    ensures '\\' in entry ==> |u| < |entry| && entry[|entry| - |u| - 1] == '\\' && '\\' !in entry[..|entry| - |u| - 1]
  {
    if '\\' in entry then entry[FirstIndex(entry, '\\') + 1..] else entry
  }

  /**
   * What `line.to_s.chomp.split("\\", 2).last` gives for one privileged-user line:
   * None for a line that is empty once chomped (`split` yields no field, `.last` is nil).
   */
  function EntryUser(line: string): Option<string> {
    var entry := Chomp(line);
    if entry == "" then None else Some(UserPart(entry))
  }

  /** The privileged-user file as read: the user part of every line. */
  function ReadPrivilegedUsers(lines: seq<string>): seq<Option<string>>
  {
    seq(|lines|, i requires 0 <= i < |lines| => EntryUser(lines[i]))
  }

  /**
   * The outcome of the `-p` check of lines 106-113 for one username: a blank line in the
   * list makes `casecmp(nil).zero?` raise; otherwise the event proceeds iff the username
   * equals, ignoring case, the user part of some line.
   */
  function PrivilegedCheck(users: seq<Option<string>>, username: string): Result<bool> {
    if exists i :: 0 <= i < |users| && users[i].None? then Err(EmptyPrivilegedUserLine)
    else Ok(exists i :: 0 <= i < |users| && CaseEq(username, users[i].value))
  }

  /** The `File.foreach` loop of lines 107-113 over the privileged-user list. */
  method IsPrivileged(users: seq<Option<string>>, username: string) returns (r: Result<bool>)
    ensures r == PrivilegedCheck(users, username)
  {
    var proceed := false;
    var i := 0;
    while i < |users|
      invariant 0 <= i <= |users|
      invariant forall j :: 0 <= j < i ==> users[j].Some?
      invariant proceed <==> exists j :: 0 <= j < i && CaseEq(username, users[j].value)
    {
      var user := users[i];
      if user.None? {
        return Err(EmptyPrivilegedUserLine);
      }
      if CaseEq(username, user.value) {
        proceed := true;
      }
      i := i + 1;
    }
    r := Ok(proceed);
  }

  /**
   * Reading the privileged-user list and checking a username: the check raises exactly when
   * some line is blank once chomped; otherwise the username proceeds exactly when it equals,
   * ignoring case, the user part of some line.
   */
  lemma PrivilegedListOfLines(lines: seq<string>, username: string)
    ensures PrivilegedCheck(ReadPrivilegedUsers(lines), username).Err? <==> exists i :: 0 <= i < |lines| && Chomp(lines[i]) == ""
    ensures PrivilegedCheck(ReadPrivilegedUsers(lines), username).Ok? ==>
              (PrivilegedCheck(ReadPrivilegedUsers(lines), username).value <==>
                 exists i :: 0 <= i < |lines| && CaseEq(username, UserPart(Chomp(lines[i]))))
  {
    var users := ReadPrivilegedUsers(lines);
    assert |users| == |lines| && forall i :: 0 <= i < |lines| ==> users[i] == EntryUser(lines[i]);
    var c := PrivilegedCheck(users, username);
    if c.Err? {
      var i :| 0 <= i < |users| && users[i].None?;
      assert Chomp(lines[i]) == "";
    } else if c.value {
      var i :| 0 <= i < |users| && CaseEq(username, users[i].value);
      assert CaseEq(username, UserPart(Chomp(lines[i])));
    } else {
      forall i | 0 <= i < |lines| ensures !CaseEq(username, UserPart(Chomp(lines[i]))) {
        assert users[i].Some?;
      }
    }
    if exists i :: 0 <= i < |lines| && Chomp(lines[i]) == "" {
      var i :| 0 <= i < |lines| && Chomp(lines[i]) == "";
      assert users[i].None?;
    }
  }

  lemma CaseEqTransfer(u1: string, u2: string, x: string)
    requires CaseEq(u1, u2)
    ensures CaseEq(u1, x) <==> CaseEq(u2, x)
  {
  }

  /** The check does not depend on the case of the username. */
  lemma PrivilegedIgnoresCase(users: seq<Option<string>>, u1: string, u2: string)
    requires CaseEq(u1, u2)
    ensures PrivilegedCheck(users, u1) == PrivilegedCheck(users, u2)
  {
    forall i | 0 <= i < |users| && users[i].Some?
      ensures CaseEq(u1, users[i].value) <==> CaseEq(u2, users[i].value)
    {
      CaseEqTransfer(u1, u2, users[i].value);
    }
  }

  /** The user part of `domain\user` is `user`, for a domain without a backslash. */
  lemma UserPartOfQualified(domain: string, user: string)
    requires '\\' !in domain
    ensures UserPart(domain + "\\" + user) == user
  {
    var entry := domain + "\\" + user;
    assert entry[|domain|] == '\\' && entry[..|domain|] == domain;
    assert entry[|domain| + 1..] == user;
  }

  lemma ExampleEntry()
    ensures EntryUser("CORP\\alice\n") == Some("alice")
  {
    var entry := "CORP" + "\\" + "alice";
    assert entry + "\n" == "CORP\\alice\n";
    ChompLine(entry);
    UserPartOfQualified("CORP", "alice");
  }

  lemma ExampleList()
    ensures ReadPrivilegedUsers(["CORP\\alice\n"]) == [Some("alice")]
  {
    ExampleEntry();
  }

  /** The `-p` example: a list holding "CORP\alice" lets alice (in any case) through and stops bob. */
  lemma PrivilegedExample()
    ensures PrivilegedCheck(ReadPrivilegedUsers(["CORP\\alice\n"]), "alice") == Ok(true)
    ensures PrivilegedCheck(ReadPrivilegedUsers(["CORP\\alice\n"]), "ALICE") == Ok(true)
    ensures PrivilegedCheck(ReadPrivilegedUsers(["CORP\\alice\n"]), "bob") == Ok(false)
  {
    ExampleList();
    var users := [Some("alice")];
    assert !exists i :: 0 <= i < |users| && users[i].None?;
    assert CaseEq("alice", users[0].value);
    assert CaseEq("ALICE", users[0].value);
    assert !CaseEq("bob", users[0].value);
  }

  /** `username.end_with?("$")`: the conventional name of a machine account. */
  predicate IsMachineAccount(username: string) {
    EndsWith(username, '$')
  }
}
