/** VUserManager run by one caller at a time: the map of registered users, in key order. */
module Registry {
  import opened Collections
  import opened KeyOrder

  // ----- Paging -----

  datatype Info = Info(playerID: int, serverID: int)

  /** The users in key order. */
  function Rows(users: map<int, Info>): (r: seq<Info>)
    ensures |r| == |users.Keys| && forall i | 0 <= i < |r| :: r[i] == users[Ascending(users.Keys)[i]]
  {
    var keys := Ascending(users.Keys);
    seq(|keys|, i requires 0 <= i < |keys| => users[keys[i]])
  }

  /** A user's id, if it is on the server. */
  function IdOn(row: Info, server: int): (r: seq<int>)
    ensures |r| <= 1
  {
    if row.serverID == server then [row.playerID] else []
  }

  /** The ids of the users on a server. */
  function Listed(rows: seq<Info>, server: int): (r: seq<int>)
    ensures |r| <= |rows|
  {
    if rows == [] then [] else IdOn(rows[0], server) + Listed(rows[1..], server)
  }

  lemma {:induction false} ListedAppend(a: seq<Info>, b: seq<Info>, server: int)
    ensures Listed(a + b, server) == Listed(a, server) + Listed(b, server)
    decreases |a|
  {
    if a == [] {
      assert a + b == b;
    } else {
      assert (a + b)[1..] == a[1..] + b;
      ListedAppend(a[1..], b, server);
    }
  }

  function Clamp(i: int, n: nat): nat {
    if i < 0 then 0 else if i < n then i else n
  }

  /** Positions `from` to `to` of a list, as far as they exist. */
  function Slice(s: seq<int>, from: int, to: int): seq<int> {
    if from < to then s[Clamp(from, |s|)..Clamp(to, |s|)] else []
  }

  /** What GetUserIDArray promises: positions max(a, 0) to b, to the end for a negative b. */
  function Page(users: map<int, Info>, server: int, a: int, b: int): seq<int> {
    var ids := Listed(Rows(users), server);
    Slice(ids, a, if b < 0 then |ids| else b)
  }

  /** "To the end" may be any position at or past the end. */
  lemma PageUpTo(users: map<int, Info>, server: int, a: int, b: int, total: nat)
    requires total >= |users.Keys|
    ensures Page(users, server, a, b) == Slice(Listed(Rows(users), server), a, if b < 0 then total else b)
  {
  }

  /** Neighbouring pages join without gap or overlap. */
  lemma PagesJoin(users: map<int, Info>, server: int, a: int, b: int, c: int)
    requires 0 <= a <= b <= c
    ensures Page(users, server, a, b) + Page(users, server, b, c) == Page(users, server, a, c)
  {
  }

  predicate Increasing(s: seq<int>) {
    forall i, j | 0 <= i < j < |s| :: s[i] < s[j]
  }

  predicate IncreasingRows(rows: seq<Info>) {
    forall i, j | 0 <= i < j < |rows| :: rows[i].playerID < rows[j].playerID
  }

  lemma {:induction false} ListedIsFilter(rows: seq<Info>, server: int)
    requires IncreasingRows(rows)
    ensures forall k :: k in Listed(rows, server) <==> Info(k, server) in rows
    ensures Increasing(Listed(rows, server))
  {
    if rows != [] {
      var tail := Listed(rows[1..], server);
      ListedIsFilter(rows[1..], server);
      assert forall r :: r in rows <==> r == rows[0] || r in rows[1..];
      forall i | 0 <= i < |tail| ensures rows[0].playerID < tail[i] {
        assert tail[i] in tail;
        assert Info(tail[i], server) in rows[1..];
      }
    }
  }

  lemma RowsAre(users: map<int, Info>, server: int, k: int)
    requires forall j | j in users :: users[j].playerID == j
    ensures Info(k, server) in Rows(users) <==> k in users && users[k].serverID == server
  {
    var keys := Ascending(users.Keys);
    AscendingIsOrder(users.Keys);
    if k in users && users[k].serverID == server {
      assert k in keys;
      var i :| 0 <= i < |keys| && keys[i] == k;
      assert Rows(users)[i] == Info(k, server);
    }
  }

  lemma RowsIncrease(users: map<int, Info>)
    requires forall j | j in users :: users[j].playerID == j
    ensures forall i, j | 0 <= i < j < |Rows(users)| :: Rows(users)[i].playerID < Rows(users)[j].playerID
  {
    AscendingIsOrder(users.Keys);
  }

  /** The page from the first user to the end is everybody on the server, each once, by
      ascending id. */
  lemma PageIsAll(users: map<int, Info>, server: int)
    requires forall k | k in users :: users[k].playerID == k
    ensures forall k :: k in Page(users, server, 0, -1) <==> k in users && users[k].serverID == server
    ensures Increasing(Page(users, server, 0, -1))
  {
    RowsIncrease(users);
    ListedIsFilter(Rows(users), server);
    forall k ensures Info(k, server) in Rows(users) <==> k in users && users[k].serverID == server {
      RowsAre(users, server, k);
    }
  }

  /** The page from a to b holds the users at positions max(a, 0) up to but not b, and no
      others: its k-th is the one at position max(a, 0) + k of the whole list. */
  lemma PageAt(users: map<int, Info>, server: int, a: int, b: int, k: nat)
    ensures var all, page := Page(users, server, 0, -1), Page(users, server, a, b);
            var first := if a < 0 then 0 else a;
            (k < |page| <==> first + k < |all| && (b < 0 || first + k < b))
            && (k < |page| ==> page[k] == all[first + k])
  {
  }

  // ----- One step of the traversal -----

  lemma ListedOne(row: Info, server: int)
    ensures Listed([row], server) == IdOn(row, server)
  {
    assert [row][1..] == [];
    assert IdOn(row, server) + [] == IdOn(row, server);
  }

  lemma ListedNext(rows: seq<Info>, k: nat, server: int)
    requires k < |rows|
    ensures Listed(rows[..k + 1], server) == Listed(rows[..k], server) + IdOn(rows[k], server)
  {
    assert rows[..k + 1] == rows[..k] + [rows[k]];
    ListedAppend(rows[..k], [rows[k]], server);
    ListedOne(rows[k], server);
  }

  lemma SliceNext(s: seq<int>, x: int, from: int, to: int)
    requires from < to
    ensures |s| < to ==> Slice(s + [x], from, to) == Slice(s, from, to) + if |s| >= from then [x] else []
  {
    if |s| < to && |s| >= from {
      var a := Clamp(from, |s|);
      assert (s + [x])[a..|s| + 1] == s[a..|s|] + [x];
    }
  }

  lemma SliceOfPrefix(s: seq<int>, t: seq<int>, a: nat, b: nat)
    requires a <= b <= |s|
    ensures (s + t)[a..b] == s[a..b]
  {
  }

  lemma SlicePrefix(s: seq<int>, t: seq<int>, from: int, to: int)
    requires from < to <= |s|
    ensures Slice(s + t, from, to) == Slice(s, from, to)
  {
    SliceOfPrefix(s, t, Clamp(from, |s|), Clamp(to, |s|));
    assert Clamp(from, |s + t|) == Clamp(from, |s|) && Clamp(to, |s + t|) == Clamp(to, |s|);
  }

  /** Past the end of the page the rest of the list does not matter. */
  lemma SliceSettled(rows: seq<Info>, k: nat, server: int, from: int, to: int)
    requires k <= |rows| && from < to <= |Listed(rows[..k], server)|
    ensures Slice(Listed(rows, server), from, to) == Slice(Listed(rows[..k], server), from, to)
  {
    assert rows == rows[..k] + rows[k..];
    ListedAppend(rows[..k], rows[k..], server);
    SlicePrefix(Listed(rows[..k], server), Listed(rows[k..], server), from, to);
  }

  // ----- The manager -----

  class ChatUser {
    var m_nPlayerID: int
    var m_nServerID: int

    constructor (playerID: int)
      ensures m_nPlayerID == playerID && m_nServerID == 0
    {
      m_nPlayerID, m_nServerID := playerID, 0;
    }
  }

  class UserManager {
    var m_pUsers: map<int, ChatUser>
    const m_nMaxPlayer: int

    constructor (maxPlayer: int)
      ensures m_pUsers == map[] && m_nMaxPlayer == maxPlayer
    {
      m_pUsers, m_nMaxPlayer := map[], maxPlayer;
    }

    ghost function Infos(): (r: map<int, Info>)
      reads this, m_pUsers.Values
      ensures r.Keys == m_pUsers.Keys
    {
      map k | k in m_pUsers :: Info(m_pUsers[k].m_nPlayerID, m_pUsers[k].m_nServerID)
    }

    /** Registers the user if there is room, displacing a user with the same id. */
    method AddUser(pUser: ChatUser) returns (ok: bool)
      modifies this`m_pUsers
      ensures ok <==> |old(m_pUsers)| < m_nMaxPlayer
      ensures m_pUsers == if ok then old(m_pUsers)[pUser.m_nPlayerID := pUser] else old(m_pUsers)
      ensures |old(m_pUsers)| <= m_nMaxPlayer ==> |m_pUsers| <= m_nMaxPlayer
      ensures pUser.m_nPlayerID in old(m_pUsers) ==> |m_pUsers| == |old(m_pUsers)|
    {
      if |m_pUsers| < m_nMaxPlayer {
        var id := pUser.m_nPlayerID;
        MapUpdateSize(m_pUsers, id, pUser);
        m_pUsers := m_pUsers[id := pUser];
        return true;
      }
      return false;
    }

    /** The new user, registered under its id, or null when the registry is full. */
    method CreateUser(nUserID: int) returns (user: ChatUser?)
      modifies this`m_pUsers
      ensures user != null <==> |old(m_pUsers)| < m_nMaxPlayer
      ensures user != null ==> fresh(user) && user.m_nPlayerID == nUserID && m_pUsers == old(m_pUsers)[nUserID := user]
      ensures user == null ==> m_pUsers == old(m_pUsers)
    {
      if |m_pUsers| < m_nMaxPlayer {
        var created := new ChatUser(nUserID);
        var added := AddUser(created);
        return created;
      }
      return null;
    }

    /** Removes this very user, if it is registered under its id; never another one. */
    method RemoveUser(pUser: ChatUser) returns (removed: bool)
      modifies this`m_pUsers
      ensures removed <==> pUser.m_nPlayerID in old(m_pUsers) && old(m_pUsers)[pUser.m_nPlayerID] == pUser
      ensures m_pUsers == if removed then old(m_pUsers) - {pUser.m_nPlayerID} else old(m_pUsers)
    {
      var id := pUser.m_nPlayerID;
      if id in m_pUsers && m_pUsers[id] == pUser {
        m_pUsers := m_pUsers - {id};
        return true;
      }
      return false;
    }

    /** The loop over the map: skip to the page, collect it, stop behind it. */
    method Traverse(keys: seq<int>, ghost rows: seq<Info>, nServerID: int, nFrom: int, nTo: int)
      returns (arrPlayerID: seq<int>)
      requires nFrom < nTo && |rows| == |keys|
      requires forall k | 0 <= k < |keys| ::
        keys[k] in m_pUsers && rows[k] == Info(m_pUsers[keys[k]].m_nPlayerID, m_pUsers[keys[k]].m_nServerID)
      ensures arrPlayerID == Slice(Listed(rows, nServerID), nFrom, nTo)
    {
      arrPlayerID := [];
      ghost var seen: seq<int> := [];
      var i, k := 0, 0;
      while k < |keys|
        invariant k <= |keys| && seen == Listed(rows[..k], nServerID) && i == |seen|
        invariant arrPlayerID == Slice(seen, nFrom, nTo)
      {
        var pUser := m_pUsers[keys[k]];
        ListedNext(rows, k, nServerID);
        if pUser.m_nServerID == nServerID {
          if i >= nTo {
            SliceSettled(rows, k, nServerID, nFrom, nTo);
            return;
          } else if i >= nFrom {
            arrPlayerID := arrPlayerID + [pUser.m_nPlayerID];
          }
          SliceNext(seen, pUser.m_nPlayerID, nFrom, nTo);
          seen := seen + [pUser.m_nPlayerID];
          i := i + 1;
        }
        k := k + 1;
      }
      assert rows[..k] == rows;
    }

    method GetUserIDArray(nServerID: int, nFrom: int, nTo: int) returns (arrPlayerID: seq<int>)
      ensures arrPlayerID == Page(Infos(), nServerID, nFrom, nTo)
    {
      arrPlayerID := [];
      var to := if nTo < 0 then |m_pUsers| else nTo;
      ghost var users := Infos();
      assert |m_pUsers| == |m_pUsers.Keys|;
      PageUpTo(users, nServerID, nFrom, nTo, |m_pUsers|);
      if nFrom < to {
        arrPlayerID := Traverse(Ascending(m_pUsers.Keys), Rows(users), nServerID, nFrom, to);
      }
    }
  }
}
