/** The request handlers of the user service over the module-level collection
    `users`, with the JSON file it is mirrored to. HTTP plumbing is reduced
    to a `Response` value; the file to a snapshot of what was last written. */
module Api {
  import opened Wrappers
  import opened Validation
  import opened UserStore

  /** The body of the 404 answer to a read of an unknown id. */
  const NotFoundMessage := "Utilisateur non trouv\U{e9}"

  /** The text the delete handler passes to `send`; a 204 answer carries no
      body, so it never reaches the client. */
  const DeletedMessage := "Utilisateur supprim\U{e9} avec succ\U{e8}s "

  /** What a handler answers, with the HTTP status in the comment. */
  datatype Response =
    | Created(user: User)              // 201, the new record
    | Listed(users: seq<User>)         // 200, the whole collection
    | Found(user: User)                // 200, the record read
    | NotFound(message: string)        // 404
    | Updated(body: Candidate)         // 200, the request body echoed back
    | BadRequest(errors: seq<string>)  // 400, the validator's messages
    | Deleted(text: string)            // 204, no body; the text passed to `send`

  /** The service state: the in-memory collection and, as ghost state, the
      collection last written to the backing file. */
  class Store {
    var users: seq<User>
    ghost var saved: seq<User>

    /** The backing file holds the collection as it stands: the collection is
        loaded from the file and written back after every change. */
    ghost predicate Valid()
      reads this
    {
      saved == users
    }

    /** Start-up load: the parsed file contents when the file exists, an empty
        collection otherwise. */
    constructor Load(file: Option<seq<User>>)
      ensures Valid()
      ensures users == if file.Some? then file.value else []
    {
      users := if file.Some? then file.value else [];
      saved := users;
    }

    /** POST /api/users: an invalid body is answered with its error list and
        changes nothing; a valid one is appended as a new record under
        `freshId` and answered with that record. */
    method Post(body: Candidate, freshId: string) returns (response: Response)
      requires Valid()
      modifies this
      ensures Valid()
      ensures Errors(body) != [] ==>
        response == BadRequest(Errors(body)) && users == old(users)
      ensures Errors(body) == [] ==>
        && IsValidUser(body)
        && response == Created(NewUser(freshId, body))
        && users == old(users) + [NewUser(freshId, body)]
      ensures UniqueIds(old(users)) && !HasId(old(users), freshId) ==> UniqueIds(users)
      ensures AllStored(old(users)) ==> AllStored(users)
    {
      var errors := ValidateUser(body);
      if |errors| != 0 {
        return BadRequest(errors);
      }
      var user := NewUser(freshId, body);
      if UniqueIds(users) && !HasId(users, freshId) {
        AppendKeepsIdsUnique(users, user);
      }
      if AllStored(users) {
        AppendKeepsStored(users, user);
      }
      users := users + [user];
      saved := users;
      response := Created(user);
    }

    /** GET /api/users: the whole collection, in insertion order. */
    method List() returns (response: Response)
      ensures response == Listed(users)
    {
      response := Listed(users);
    }

    /** GET /api/users/:id: the first record carrying `id`, or a 404 when
        none does; nothing changes. */
    method Get(id: string) returns (response: Response)
      ensures response.NotFound? <==> !HasId(users, id)
      ensures response.NotFound? ==> response.message == NotFoundMessage
      ensures !response.NotFound? ==> response.Found?
      ensures response.Found? ==> exists i | 0 <= i < |users| ::
        users[i] == response.user && response.user.id == id && NoIdBefore(users, id, i)
    {
      var found := Find(users, id);
      if found.None? {
        return NotFound(NotFoundMessage);
      }
      response := Found(found.value);
    }

    /** PUT /api/users/:id: the body is validated with the path id merged in;
        an invalid body is answered with its error list and changes nothing;
        a valid one replaces every record carrying `id` by the body's fields
        under that id (none when no record does) and is echoed back. */
    method Put(id: string, body: Candidate) returns (response: Response)
      requires Valid()
      modifies this
      ensures Valid()
      ensures Errors(body) != [] ==>
        response == BadRequest(Errors(body)) && users == old(users)
      ensures Errors(body) == [] ==>
        && IsValidUser(body)
        && response == Updated(body)
        && users == Replace(old(users), id, NewUser(id, body))
      ensures UniqueIds(old(users)) ==> UniqueIds(users)
      ensures AllStored(old(users)) ==> AllStored(users)
    {
      var errors := ValidateUser(body.(id := Some(JString(id))));
      ErrorsIgnoreId(body, Some(JString(id)));
      if |errors| != 0 {
        return BadRequest(errors);
      }
      var user := NewUser(id, body);
      ReplaceKeepsIds(users, id, user);
      if AllStored(users) {
        ReplaceKeepsStored(users, id, user);
      }
      users := Replace(users, id, user);
      saved := users;
      response := Updated(body);
    }

    /** DELETE /api/users/:id: every record carrying `id` is dropped, the rest
        keep their order, and the answer is the same whether or not anything
        was dropped. */
    method Delete(id: string) returns (response: Response)
      requires Valid()
      modifies this
      ensures Valid()
      ensures users == Remove(old(users), id)
      ensures response == Deleted(DeletedMessage)
      ensures UniqueIds(old(users)) ==> UniqueIds(users)
      ensures AllStored(old(users)) ==> AllStored(users)
    {
      if UniqueIds(users) {
        RemoveKeepsIdsUnique(users, id);
      }
      if AllStored(users) {
        RemoveKeepsStored(users, id);
      }
      users := Remove(users, id);
      saved := users;
      response := Deleted(DeletedMessage);
    }
  }
}
