/** The pure parts of lib/group-actions.ts: the group-name check and the invitee list of
    createGroup, and the guards of removeMemberFromGroup. Session, role, group status and
    database lookups are passed in as values. */
module GroupActions {
  import opened Results
  import opened Calculations
  import opened Sequences

  // ---------------------------------------------------------------------------
  // String.prototype.trim
  // ---------------------------------------------------------------------------

  /** The characters `trim` removes: ECMAScript WhiteSpace and LineTerminator. */
  const Whitespace: set<char> := {
    '\t', '\n', '\U{000B}', '\U{000C}', '\r', ' ', '\U{00A0}', '\U{1680}',
    '\U{2000}', '\U{2001}', '\U{2002}', '\U{2003}', '\U{2004}', '\U{2005}',
    '\U{2006}', '\U{2007}', '\U{2008}', '\U{2009}', '\U{200A}',
    '\U{2028}', '\U{2029}', '\U{202F}', '\U{205F}', '\U{3000}', '\U{FEFF}'
  }

  predicate IsWhitespace(c: char) {
    c in Whitespace
  }

  predicate Blank(s: string) {
    forall k | 0 <= k < |s| :: IsWhitespace(s[k])
  }

  /** How many whitespace characters `s` starts with. */
  function LeadingBlanks(s: string): (n: nat)
    ensures n <= |s|
    ensures forall k | 0 <= k < n :: IsWhitespace(s[k])
    ensures n < |s| ==> !IsWhitespace(s[n])
  {
    if s != [] && IsWhitespace(s[0]) then 1 + LeadingBlanks(s[1..]) else 0
  }

  /** How many whitespace characters `s` ends with. */
  function TrailingBlanks(s: string): (n: nat)
    ensures n <= |s|
    ensures forall k | |s| - n <= k < |s| :: IsWhitespace(s[k])
    ensures n < |s| ==> !IsWhitespace(s[|s| - n - 1])
  {
    if s != [] && IsWhitespace(s[|s| - 1]) then 1 + TrailingBlanks(s[..|s| - 1]) else 0
  }

  /** `r` is what is left of `s` once some whitespace is cut off at each end. */
  predicate InnerSlice(r: string, s: string) {
    exists i, j | 0 <= i <= j <= |s| :: r == s[i..j] && Blank(s[..i]) && Blank(s[j..])
  }

  /** `s.trim()`: the slice of `s` left after dropping the whitespace at both ends, so
      that it neither starts nor ends with whitespace. */
  function Trim(s: string): (r: string)
    ensures InnerSlice(r, s)
    ensures r != [] ==> !IsWhitespace(r[0]) && !IsWhitespace(r[|r| - 1])
  {
    var i := LeadingBlanks(s);
    var j := |s| - TrailingBlanks(s[i..]);
    assert Blank(s[..i]) by {
      forall k | 0 <= k < i ensures IsWhitespace(s[..i][k]) {
        assert s[..i][k] == s[k];
      }
    }
    assert Blank(s[j..]) by {
      forall k | 0 <= k < |s| - j ensures IsWhitespace(s[j..][k]) {
        assert s[j..][k] == s[i..][j - i + k];
      }
    }
    s[i..j]
  }

  /** Only a string made of whitespace trims to nothing. */
  lemma TrimEmptyIffBlank(s: string)
    ensures Trim(s) == "" <==> Blank(s)
  {
    var i := LeadingBlanks(s);
    if Blank(s) {
      assert i == |s|;
    }
  }

  lemma TrimIdempotent(s: string)
    ensures Trim(Trim(s)) == Trim(s)
  {
    var r := Trim(s);
    if r != [] {
      assert LeadingBlanks(r) == 0;
      assert r[0..] == r;
      assert TrailingBlanks(r) == 0;
    }
  }

  // ---------------------------------------------------------------------------
  // String.prototype.split(",")
  // ---------------------------------------------------------------------------

  /** `s.split(",")`: the comma-free pieces between the commas, at least one. */
  function SplitComma(s: string): (pieces: seq<string>)
    ensures |pieces| >= 1
    ensures forall p | p in pieces :: ',' !in p
  {
    if s == [] then [""] else AddChar(SplitComma(s[..|s| - 1]), s[|s| - 1])
  }

  /** Reading one more character: a comma starts a new piece, anything else extends the last. */
  function AddChar(pieces: seq<string>, c: char): (r: seq<string>)
    requires |pieces| >= 1 && forall p | p in pieces :: ',' !in p
    ensures |r| >= 1 && forall p | p in r :: ',' !in p
  {
    var k := |pieces| - 1;
    if c == ',' then pieces + [""]
    else
      assert forall p | p in pieces[..k] :: p in pieces;
      assert pieces[k] in pieces;
      pieces[..k] + [pieces[k] + [c]]
  }

  /** `pieces.join(",")` */
  function Join(pieces: seq<string>): string
    requires |pieces| >= 1
  {
    if |pieces| == 1 then pieces[0]
    else Join(pieces[..|pieces| - 1]) + [','] + pieces[|pieces| - 1]
  }

  /** Joining after one more character is joining before it, then the character. */
  lemma JoinAddChar(ps: seq<string>, c: char)
    requires |ps| >= 1 && forall p | p in ps :: ',' !in p
    ensures Join(AddChar(ps, c)) == Join(ps) + [c]
  {
    var k := |ps| - 1;
    if c == ',' {
      assert (ps + [""])[..|ps|] == ps;
    } else if k > 0 {
      assert (ps[..k] + [ps[k] + [c]])[..k] == ps[..k];
    }
  }

  /** Joining the pieces back with commas gives the string. */
  lemma {:induction false} JoinSplit(s: string)
    ensures Join(SplitComma(s)) == s
  {
    if s != [] {
      var s', c := s[..|s| - 1], s[|s| - 1];
      JoinSplit(s');
      JoinAddChar(SplitComma(s'), c);
      assert s == s' + [c];
    }
  }

  lemma {:induction false} SplitAppendPiece(x: string, p: string)
    requires ',' !in p
    ensures SplitComma(x + [','] + p) == SplitComma(x) + [p]
  {
    if p == [] {
      assert (x + [',']) [..|x|] == x;
      assert x + [','] + p == x + [','];
    } else {
      var p', c := p[..|p| - 1], p[|p| - 1];
      assert c in p;
      assert forall ch | ch in p' :: ch in p;
      SplitAppendPiece(x, p');
      assert (x + [','] + p)[..|x + [','] + p| - 1] == x + [','] + p';
      assert p' + [c] == p;
    }
  }

  lemma {:induction false} SplitNoComma(p: string)
    requires ',' !in p
    ensures SplitComma(p) == [p]
  {
    if p != [] {
      assert forall ch | ch in p[..|p| - 1] :: ch in p;
      SplitNoComma(p[..|p| - 1]);
      assert p[|p| - 1] in p;
      assert p[..|p| - 1] + [p[|p| - 1]] == p;
    }
  }

  /** Splitting the comma-join of comma-free pieces gives the pieces back. */
  lemma {:induction false} SplitJoin(ps: seq<string>)
    requires |ps| >= 1 && forall p | p in ps :: ',' !in p
    ensures SplitComma(Join(ps)) == ps
  {
    if |ps| == 1 {
      SplitNoComma(ps[0]);
    } else {
      var k := |ps| - 1;
      assert forall p | p in ps[..k] :: p in ps;
      assert ps[k] in ps;
      SplitJoin(ps[..k]);
      SplitAppendPiece(Join(ps[..k]), ps[k]);
      assert ps[..k] + [ps[k]] == ps;
    }
  }

  /** Every piece is made of characters of the string. */
  lemma {:induction false} PiecesFromString(s: string)
    ensures forall p, ch | p in SplitComma(s) && ch in p :: ch in s
  {
    if s != [] {
      var s', c := s[..|s| - 1], s[|s| - 1];
      PiecesFromString(s');
      assert forall ch | ch in s' :: ch in s;
      var init := SplitComma(s');
      if c != ',' {
        var k := |init| - 1;
        assert forall p | p in init[..k] :: p in init;
        assert init[k] in init;
      }
    }
  }

  // ---------------------------------------------------------------------------
  // createGroup
  // ---------------------------------------------------------------------------

  /** `.map((u) => u.trim())` */
  function TrimAll(pieces: seq<string>): (r: seq<string>)
    ensures |r| == |pieces| && forall i | 0 <= i < |pieces| :: r[i] == Trim(pieces[i])
  {
    seq(|pieces|, i requires 0 <= i < |pieces| => Trim(pieces[i]))
  }

  /** `.filter((u) => u.length > 0 && u !== session.user.username)` */
  function KeepInvitees(names: seq<string>, creator: string): (r: seq<string>)
    ensures forall u :: u in r <==> u in names && u != "" && u != creator
  {
    if names == [] then []
    else
      var last := names[|names| - 1];
      assert names == names[..|names| - 1] + [last];
      KeepInvitees(names[..|names| - 1], creator) + if last != "" && last != creator then [last] else []
  }

  lemma {:induction false} KeepInviteesSubsequence(names: seq<string>, creator: string)
    ensures Subsequence(KeepInvitees(names, creator), names)
  {
    if names != [] {
      var init, last := names[..|names| - 1], names[|names| - 1];
      KeepInviteesSubsequence(init, creator);
      var r := KeepInvitees(names, creator);
      if last != "" && last != creator {
        assert r[..|r| - 1] == KeepInvitees(init, creator);
      } else {
        assert r == KeepInvitees(init, creator);
        SubsequenceOfLonger(r, init, last);
      }
    }
  }

  /** The usernames to invite: nothing for a blank field, otherwise the comma-separated
      names, trimmed, without empty names and without the creator's own. The blank-field
      guard changes nothing: the list is always the filtered, trimmed pieces. */
  function ParseUsernames(usernames: string, creator: string): (r: seq<string>)
    ensures r == KeepInvitees(TrimAll(SplitComma(usernames)), creator)
    ensures forall u | u in r :: u != "" && u != creator
  {
    if Trim(usernames) == "" then
      BlankFieldKeepsNone(usernames, creator);
      []
    else KeepInvitees(TrimAll(SplitComma(usernames)), creator)
  }

  /** A blank field splits into blank pieces, which all trim to nothing. */
  lemma BlankFieldKeepsNone(usernames: string, creator: string)
    requires Trim(usernames) == ""
    ensures KeepInvitees(TrimAll(SplitComma(usernames)), creator) == []
  {
    TrimEmptyIffBlank(usernames);
    PiecesFromString(usernames);
    var names := TrimAll(SplitComma(usernames));
    forall i | 0 <= i < |names| ensures names[i] == "" {
      var p := SplitComma(usernames)[i];
      assert p in SplitComma(usernames);
      assert forall ch | ch in p :: ch in usernames;
      assert Blank(p) by {
        forall k | 0 <= k < |p| ensures IsWhitespace(p[k]) {
          assert p[k] in p;
          var m :| 0 <= m < |usernames| && usernames[m] == p[k];
        }
      }
      TrimEmptyIffBlank(p);
    }
    NoneKept(names, creator);
  }

  lemma {:induction false} NoneKept(names: seq<string>, creator: string)
    requires forall i | 0 <= i < |names| :: names[i] == ""
    ensures KeepInvitees(names, creator) == []
  {
    if names != [] {
      NoneKept(names[..|names| - 1], creator);
    }
  }

  /** Who is invited: exactly the non-empty trimmed pieces other than the creator. */
  lemma ParseUsernamesMembers(usernames: string, creator: string)
    ensures forall u :: u in ParseUsernames(usernames, creator) <==>
      u != "" && u != creator && exists p | p in SplitComma(usernames) :: Trim(p) == u
  {
    TrimAllMembers(SplitComma(usernames));
  }

  lemma TrimAllMembers(pieces: seq<string>)
    ensures forall u :: u in TrimAll(pieces) <==> exists p | p in pieces :: Trim(p) == u
  {
    var names := TrimAll(pieces);
    forall u | u in names ensures exists p | p in pieces :: Trim(p) == u {
      var i :| 0 <= i < |names| && names[i] == u;
      assert pieces[i] in pieces;
    }
    forall p | p in pieces ensures Trim(p) in names {
      var i :| 0 <= i < |pieces| && pieces[i] == p;
      assert names[i] == Trim(p);
    }
  }

  /** The invitees keep the order in which they were typed. */
  lemma ParseUsernamesOrder(usernames: string, creator: string)
    ensures Subsequence(ParseUsernames(usernames, creator), TrimAll(SplitComma(usernames)))
  {
    KeepInviteesSubsequence(TrimAll(SplitComma(usernames)), creator);
  }

  /** Every invitee is already trimmed and holds no comma. */
  lemma ParseUsernamesClean(usernames: string, creator: string)
    ensures forall u | u in ParseUsernames(usernames, creator) :: Trim(u) == u && ',' !in u
  {
    var pieces := SplitComma(usernames);
    var names := TrimAll(pieces);
    forall u | u in names ensures Trim(u) == u && ',' !in u {
      var i :| 0 <= i < |names| && names[i] == u;
      assert pieces[i] in pieces;
      TrimmedPiece(pieces[i]);
    }
  }

  lemma TrimmedPiece(p: string)
    requires ',' !in p
    ensures Trim(Trim(p)) == Trim(p) && ',' !in Trim(p)
  {
    TrimIdempotent(p);
    var u := Trim(p);
    assert InnerSlice(u, p);
  }

  datatype GroupError = NameRequired   // "Group name is required"

  /** `!name || name.trim().length === 0` is refused; the group is named `name.trim()`. */
  function ValidateGroupName(name: string): (r: Result<string, GroupError>)
    ensures r.Failure? <==> Blank(name)
    ensures r.Success? ==> r.value == Trim(name) && r.value != "" &&
                           !IsWhitespace(r.value[0]) && !IsWhitespace(r.value[|r.value| - 1])
  {
    TrimEmptyIffBlank(name);
    if Trim(name) == "" then Failure(NameRequired) else Success(Trim(name))
  }

  /** The group a successful createGroup sets up: its name, the creator as admin, and the
      usernames looked up to be added as members. */
  datatype GroupPlan = GroupPlan(name: string, admin: string, invitees: seq<string>)

  function CreateGroup(name: string, usernames: string, creatorId: string, creatorUsername: string)
    : (r: Result<GroupPlan, GroupError>)
    ensures r.Failure? <==> Blank(name)
    ensures r.Success? ==> r.value.name == Trim(name) && r.value.name != "" && r.value.admin == creatorId
    ensures r.Success? ==> r.value.invitees == ParseUsernames(usernames, creatorUsername)
    ensures r.Success? ==> forall u :: u in r.value.invitees <==>
      u != "" && u != creatorUsername && exists p | p in SplitComma(usernames) :: Trim(p) == u
  {
    match ValidateGroupName(name)
    case Failure(e) => Failure(e)
    case Success(trimmed) =>
      ParseUsernamesMembers(usernames, creatorUsername);
      Success(GroupPlan(trimmed, creatorId, ParseUsernames(usernames, creatorUsername)))
  }

  // ---------------------------------------------------------------------------
  // removeMemberFromGroup
  // ---------------------------------------------------------------------------

  datatype RemoveError =
    | NotAdmin          // "Only group admins can remove members"
    | GroupClosed       // "Cannot remove members from a closed group"
    | RemovingSelf      // "Cannot remove yourself from group"
    | NonZeroBalance    // "Cannot remove member with a non-zero balance. Please settle up first."

  datatype RemoveOutcome = Removed | Refused(reason: RemoveError)

  /** `Math.abs(balance) > 0.01` in cents. */
  const BalanceTolerance: int := 1

  /** The guards, in order: the caller must be an admin, the group open, the member not the
      caller, and the member's group balance within a cent of zero. When the group's data
      is not found the balance check is skipped. A removed member owes and is owed at most
      a cent, by the net balance too when no transaction splits twice to them. */
  method RemoveMemberFromGroup(isAdmin: bool, groupClosed: bool, sessionUserId: string, userId: string,
                               groupData: Option<(seq<Transaction>, seq<Settlement>)>)
    returns (r: RemoveOutcome)
    ensures r == Refused(NotAdmin) <==> !isAdmin
    ensures r == Refused(GroupClosed) <==> isAdmin && groupClosed
    ensures r == Refused(RemovingSelf) <==> isAdmin && !groupClosed && userId == sessionUserId
    ensures r == Refused(NonZeroBalance) <==>
      isAdmin && !groupClosed && userId != sessionUserId && groupData.Some? &&
      Abs(GroupBalance(userId, groupData.value.0, groupData.value.1)) > BalanceTolerance
    ensures r == Removed ==> isAdmin && !groupClosed && userId != sessionUserId
    ensures r == Removed && groupData.Some? ==>
      Abs(GroupBalance(userId, groupData.value.0, groupData.value.1)) <= BalanceTolerance
    ensures (r == Removed && groupData.Some? &&
             forall t | t in groupData.value.0 :: AtMostOneSplit(userId, t.splits)) ==>
      Abs(NetBalance(userId, groupData.value.0, groupData.value.1)) <= BalanceTolerance
  {
    if !isAdmin {
      return Refused(NotAdmin);
    }
    if groupClosed {
      return Refused(GroupClosed);
    }
    if userId == sessionUserId {
      return Refused(RemovingSelf);
    }
    if groupData.Some? {
      var balance := CalculateGroupBalance(userId, groupData.value.0, groupData.value.1);
      if Abs(balance) > BalanceTolerance {
        return Refused(NonZeroBalance);
      }
    }
    return Removed;
  }
}
