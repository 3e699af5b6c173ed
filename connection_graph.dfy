/** The Connection table as a value: directed rows keyed by the ordered pair
    (requester, requestee), each carrying `accepted`. A pair of users is unconnected,
    requested (a row that is not accepted) or connected (an accepted row). */
module ConnectionGraph {
  import opened Domain

  /** The table's primary key. */
  datatype Pair = Pair(requester: UserId, requestee: UserId)

  /** The Connection rows: key -> accepted. */
  type Rows = map<Pair, bool>

  datatype ConnStatus = Unconnected | Requested | Connected

  function Flip(p: Pair): Pair
  {
    Pair(p.requestee, p.requester)
  }

  /** Some row joins `a` and `b`, in either direction. */
  predicate Linked(rows: Rows, a: UserId, b: UserId)
  {
    Pair(a, b) in rows || Pair(b, a) in rows
  }

  predicate AcceptedRow(rows: Rows, p: Pair)
  {
    p in rows && rows[p]
  }

  /** An accepted row joins `a` and `b`, in either direction. */
  predicate AcceptedBetween(rows: Rows, a: UserId, b: UserId)
  {
    AcceptedRow(rows, Pair(a, b)) || AcceptedRow(rows, Pair(b, a))
  }

  /** A row that is not accepted joins `a` and `b`, in either direction. */
  predicate PendingBetween(rows: Rows, a: UserId, b: UserId)
  {
    (Pair(a, b) in rows && !rows[Pair(a, b)]) || (Pair(b, a) in rows && !rows[Pair(b, a)])
  }

  /** The invariant the create operation keeps: at most one row per unordered pair. */
  ghost predicate PairUnique(rows: Rows)
  {
    forall p :: p in rows ==> Flip(p) !in rows
  }

  /** `isConnected(requestee, requester)`: the row in the asked direction is consulted
      first, the reverse row only when it is absent. */
  function StatusOf(rows: Rows, requestee: UserId, requester: UserId): (r: ConnStatus)
    ensures r == Unconnected <==> !Linked(rows, requestee, requester)
    ensures r == Connected ==> AcceptedBetween(rows, requestee, requester)
    ensures r == Requested ==> PendingBetween(rows, requestee, requester)
    ensures Pair(requester, requestee) in rows ==> (r == Connected <==> rows[Pair(requester, requestee)])
    ensures Pair(requester, requestee) !in rows && Pair(requestee, requester) in rows ==>
      (r == Connected <==> rows[Pair(requestee, requester)])
  {
    var direct := Pair(requester, requestee);
    var reverse := Pair(requestee, requester);
    if direct in rows then (if rows[direct] then Connected else Requested)
    else if reverse in rows then (if rows[reverse] then Connected else Requested)
    else Unconnected
  }

  /** Under pair uniqueness the answer does not depend on the order of the arguments,
      and "connected" means exactly that the one row between the two is accepted. */
  lemma StatusSymmetric(rows: Rows, a: UserId, b: UserId)
    requires PairUnique(rows)
    ensures StatusOf(rows, a, b) == StatusOf(rows, b, a)
    ensures StatusOf(rows, a, b) == Connected <==> AcceptedBetween(rows, a, b)
    ensures StatusOf(rows, a, b) == Requested <==> PendingBetween(rows, a, b)
  {
    if Pair(a, b) in rows {
      assert Flip(Pair(a, b)) == Pair(b, a);
    }
  }

  /** Pair uniqueness rules out rows from a user to themself, so nobody is connected
      to themself. */
  lemma NoSelfConnection(rows: Rows, u: UserId)
    requires PairUnique(rows)
    ensures StatusOf(rows, u, u) == Unconnected
  {
    assert Pair(u, u) in rows ==> Flip(Pair(u, u)) in rows;
  }

  /** `p.requestee == me ? p.requester : p.requestee` */
  function Other(p: Pair, me: UserId): UserId
  {
    if p.requestee == me then p.requester else p.requestee
  }

  /** getIncomingConnectionRequests: the requesters of unaccepted rows addressed to
      `me`, restricted by `findByIds` to ids that name a user. */
  function IncomingRequests(rows: Rows, users: set<UserId>, me: UserId): (r: set<UserId>)
    ensures forall u :: u in r <==> u in users && Pair(u, me) in rows && !rows[Pair(u, me)]
  {
    set p | p in rows && p.requestee == me && !rows[p] && p.requester in users :: p.requester
  }

  /** getOutgoingConnectionRequests: the requestees of unaccepted rows sent by `me`. */
  function OutgoingRequests(rows: Rows, users: set<UserId>, me: UserId): (r: set<UserId>)
    ensures forall u :: u in r <==> u in users && Pair(me, u) in rows && !rows[Pair(me, u)]
  {
    set p | p in rows && p.requester == me && !rows[p] && p.requestee in users :: p.requestee
  }

  /** getAcceptedConnections: the other end of every accepted row touching `me`. */
  function AcceptedConnections(rows: Rows, users: set<UserId>, me: UserId): (r: set<UserId>)
    ensures forall u :: u in r <==> u in users && AcceptedBetween(rows, me, u)
  {
    var r := set p | p in rows && rows[p] && (p.requestee == me || p.requester == me)
                     && Other(p, me) in users :: Other(p, me);
    assert forall u :: u in users && AcceptedBetween(rows, me, u) ==> u in r by {
      forall u | u in users && AcceptedBetween(rows, me, u) ensures u in r {
        if AcceptedRow(rows, Pair(me, u)) {
          assert Other(Pair(me, u), me) == u;
        } else {
          assert Other(Pair(u, me), me) == u;
        }
      }
    }
    r
  }

  /** The three lists agree with the status query: an incoming or outgoing request is a
      "requested" pair and an accepted connection a "connected" one. */
  lemma ListsAgreeWithStatus(rows: Rows, users: set<UserId>, me: UserId, u: UserId)
    requires PairUnique(rows)
    ensures u in IncomingRequests(rows, users, me) ==> StatusOf(rows, me, u) == Requested
    ensures u in OutgoingRequests(rows, users, me) ==> StatusOf(rows, me, u) == Requested
    ensures u in AcceptedConnections(rows, users, me) <==> u in users && StatusOf(rows, me, u) == Connected
  {
    StatusSymmetric(rows, me, u);
  }

  /** `isValidAcceptedConnections`: true exactly for a null row list (`None`); the query
      reports an error in that case. */
  function IsValidAcceptedConnections(found: Option<seq<Pair>>): (r: bool)
    ensures r <==> found == None
  {
    match found
    case None => true
    case Some(_) => false
  }

  // ----- the table after each request -----

  /** createUserConnection: refuse a self-connection or any existing row between the two,
      otherwise store a pending row from `requester` to `requestee`. */
  function CreateConnection(rows: Rows, requestee: UserId, requester: UserId): (r: Result<Rows>)
    ensures r == Err(ApiError("create_connection/connect_to_self")) <==> requestee == requester
    ensures r == Err(ApiError("create_connection/connection_exists")) <==>
      requestee != requester && Linked(rows, requestee, requester)
    ensures r.Ok? <==> requestee != requester && !Linked(rows, requestee, requester)
    ensures r.Ok? ==> (r.value.Keys == rows.Keys + {Pair(requester, requestee)}
                       && Pair(requester, requestee) !in rows
                       && (forall p :: p in rows ==> r.value[p] == rows[p])
                       && StatusOf(r.value, requestee, requester) == Requested
                       && StatusOf(r.value, requester, requestee) == Requested)
    ensures r.Ok? && PairUnique(rows) ==> PairUnique(r.value)
  {
    if requestee == requester then Err(ApiError("create_connection/connect_to_self"))
    else if Linked(rows, requestee, requester) then Err(ApiError("create_connection/connection_exists"))
    else Ok(rows[Pair(requester, requestee) := false])
  }

  /** deleteUserConnection: remove the row between the two users, the one from
      `requester` if both exist. */
  function DeleteConnection(rows: Rows, requestee: UserId, requester: UserId): (r: Result<Rows>)
    ensures r == Err(ApiError("delete_connection/connect_to_self")) <==> requestee == requester
    ensures r == Err(ApiError("delete_connection/connection_not_exists")) <==>
      requestee != requester && !Linked(rows, requestee, requester)
    ensures r.Ok? <==> requestee != requester && Linked(rows, requestee, requester)
    ensures r.Ok? ==> exists p :: (p == Pair(requester, requestee) || p == Pair(requestee, requester))
                                  && p in rows && r.value == rows - {p}
    ensures r.Ok? && PairUnique(rows) ==> PairUnique(r.value) && !Linked(r.value, requestee, requester)
  {
    var direct, reverse := Pair(requester, requestee), Pair(requestee, requester);
    if requestee == requester then Err(ApiError("delete_connection/connect_to_self"))
    else if direct in rows then
      assert PairUnique(rows) ==> Flip(direct) !in rows;
      Ok(rows - {direct})
    else if reverse in rows then Ok(rows - {reverse})
    else Err(ApiError("delete_connection/connection_not_exists"))
  }

  /** acceptRequest: only the requestee of a row can accept it; without that row the
      read of `accepted` on an undefined result throws. */
  function AcceptConnection(rows: Rows, requestee: UserId, requester: UserId): (r: Result<Rows>)
    ensures r.Err? <==> Pair(requester, requestee) !in rows
    ensures r.Err? ==> r.error == UnknownError
    ensures r.Ok? ==> (r.value.Keys == rows.Keys && AcceptedRow(r.value, Pair(requester, requestee))
                       && forall p :: p in rows && p != Pair(requester, requestee) ==> r.value[p] == rows[p])
    ensures r.Ok? && PairUnique(rows) ==> (PairUnique(r.value)
                                          && StatusOf(r.value, requestee, requester) == Connected
                                          && StatusOf(r.value, requester, requestee) == Connected)
  {
    var p := Pair(requester, requestee);
    if p !in rows then Err(UnknownError)
    else
      assert PairUnique(rows) ==> Flip(p) !in rows;
      Ok(rows[p := true])
  }

  /** declineRequest (and deleteRequest, the same code): remove the row from `requester`
      to `requestee`; the ORM refuses to delete with an undefined criterion. */
  function DeclineConnection(rows: Rows, requestee: UserId, requester: UserId): (r: Result<Rows>)
    ensures r.Err? <==> Pair(requester, requestee) !in rows
    ensures r.Err? ==> r.error == UnknownError
    ensures r.Ok? ==> (r.value.Keys == rows.Keys - {Pair(requester, requestee)}
                       && forall p :: p in r.value ==> r.value[p] == rows[p])
    ensures r.Ok? && PairUnique(rows) ==> PairUnique(r.value) && !Linked(r.value, requestee, requester)
  {
    var p := Pair(requester, requestee);
    if p !in rows then Err(UnknownError)
    else
      assert PairUnique(rows) ==> Flip(p) !in rows;
      Ok(rows - {p})
  }

  /** A request can be withdrawn by either side: deleting the connection, named from
      either end, restores the table as it was before the request. */
  lemma CreateThenDelete(rows: Rows, requestee: UserId, requester: UserId)
    requires CreateConnection(rows, requestee, requester).Ok?
    ensures var created := CreateConnection(rows, requestee, requester).value;
      DeleteConnection(created, requestee, requester) == Ok(rows)
      && DeleteConnection(created, requester, requestee) == Ok(rows)
  {
    var created := CreateConnection(rows, requestee, requester).value;
    assert created - {Pair(requester, requestee)} == rows;
  }

  /** Declining a request just made restores the table; accepting it connects the two,
      in both directions. */
  lemma CreateThenAnswer(rows: Rows, requestee: UserId, requester: UserId)
    requires CreateConnection(rows, requestee, requester).Ok?
    ensures var created := CreateConnection(rows, requestee, requester).value;
      DeclineConnection(created, requestee, requester) == Ok(rows)
      && AcceptConnection(created, requestee, requester).Ok?
      && (PairUnique(rows) ==> AcceptedConnections(AcceptConnection(created, requestee, requester).value,
                                                    {requester}, requestee) == {requester})
  {
    var created := CreateConnection(rows, requestee, requester).value;
    assert created - {Pair(requester, requestee)} == rows;
    if PairUnique(rows) {
      var accepted := AcceptConnection(created, requestee, requester).value;
      assert AcceptedBetween(accepted, requestee, requester);
    }
  }

  /** The requester cannot accept their own request: the row is keyed the other way. */
  lemma RequesterCannotAccept(rows: Rows, requestee: UserId, requester: UserId)
    requires CreateConnection(rows, requestee, requester).Ok?
    ensures AcceptConnection(CreateConnection(rows, requestee, requester).value, requester, requestee)
         == Err(UnknownError)
  {
  }
}
