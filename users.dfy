/** The user records and the sequence operations the request handlers apply
    to the in-memory collection `users`: append on create, `find` by id on
    read, `map` with replacement on update and `filter` on delete. */
module UserStore {
  import opened Wrappers
  import opened Validation

  /** A stored record: the id the server assigned and the fields copied from
      a body that passed validation. An absent age stays absent. */
  datatype User = User(
    id: string,
    firstName: string,
    lastName: string,
    email: string,
    age: Option<real>,
    country: string)

  /** The record built from a valid body under the given id
      (`{ id, firstName, lastName, email, age, country }`): every field is
      copied from the body, and any `id` the body carries is ignored. */
  function NewUser(id: string, body: Candidate): (u: User)
    requires IsValidUser(body)
    ensures u.id == id
    ensures body.firstName == Some(JString(u.firstName)) && !IsBlank(u.firstName)
    ensures body.lastName == Some(JString(u.lastName)) && !IsBlank(u.lastName)
    ensures body.email == Some(JString(u.email)) && IsWellFormedEmail(u.email)
    ensures body.country == Some(JString(u.country)) && !IsBlank(u.country)
    ensures u.age.None? <==> body.age.None?
    ensures u.age.Some? ==> body.age == Some(JNumber(u.age.value)) && u.age.value >= 0.0
    ensures IsStoredRecord(u)
  {
    assert Passes(body, FirstName) && Passes(body, LastName) && Passes(body, Email);
    assert Passes(body, Age) && Passes(body, Country);
    User(id,
         body.firstName.value.s,
         body.lastName.value.s,
         body.email.value.s,
         if body.age.Some? then Some(body.age.value.n) else None,
         body.country.value.s)
  }

  /** A record as validation leaves it: first name, last name and country
      each hold a non-whitespace character, the e-mail is well formed, and an
      age, when there is one, is at least 0. */
  predicate IsStoredRecord(u: User) {
    && !IsBlank(u.firstName)
    && !IsBlank(u.lastName)
    && IsWellFormedEmail(u.email)
    && (u.age.None? || u.age.value >= 0.0)
    && !IsBlank(u.country)
  }

  /** Every record of the collection passed validation when it was written. */
  predicate AllStored(users: seq<User>) {
    forall u | u in users :: IsStoredRecord(u)
  }

  /** Some record of `users` carries `id`. */
  predicate HasId(users: seq<User>, id: string) {
    exists i | 0 <= i < |users| :: users[i].id == id
  }

  /** No two records of `users` share an id. */
  predicate UniqueIds(users: seq<User>) {
    forall i, j | 0 <= i < j < |users| :: users[i].id != users[j].id
  }

  /** No record before position `i` carries `id`. */
  predicate NoIdBefore(users: seq<User>, id: string, i: int)
    requires 0 <= i <= |users|
  {
    forall j | 0 <= j < i :: users[j].id != id
  }

  /** `users.find(user => user.id === id)`: the first record carrying `id`, or
      nothing when no record does. */
  function Find(users: seq<User>, id: string): (r: Option<User>)
    ensures r.None? <==> !HasId(users, id)
    ensures r.Some? ==> exists i | 0 <= i < |users| ::
      users[i] == r.value && r.value.id == id && NoIdBefore(users, id, i)
  {
    if |users| == 0 then None
    else if users[0].id == id then
      assert NoIdBefore(users, id, 0);
      Some(users[0])
    else
      var r := Find(users[1..], id);
      if r.Some? then
        var i :| 0 <= i < |users| - 1 && users[1..][i] == r.value && r.value.id == id
                 && NoIdBefore(users[1..], id, i);
        assert users[i + 1] == r.value && NoIdBefore(users, id, i + 1);
        r
      else
        assert !HasId(users, id) by {
          forall i | 0 <= i < |users| ensures users[i].id != id {
            if i > 0 { assert users[1..][i - 1] == users[i]; }
          }
        }
        r
  }

  /** `users.map(user => user.id === id ? replacement : user)`: same length and
      order; every record carrying `id` becomes `replacement`, every other
      record is kept as it was. */
  function Replace(users: seq<User>, id: string, replacement: User): (r: seq<User>)
    ensures |r| == |users|
    ensures forall i | 0 <= i < |users| ::
      if users[i].id == id then r[i] == replacement else r[i] == users[i]
  {
    if |users| == 0 then []
    else [if users[0].id == id then replacement else users[0]] + Replace(users[1..], id, replacement)
  }

  /** `users.filter(user => user.id !== id)`: no record carrying `id` is left,
      and every other record is kept. */
  function Remove(users: seq<User>, id: string): (r: seq<User>)
    ensures |r| <= |users|
    ensures !HasId(r, id)
    ensures forall u :: u in r <==> u in users && u.id != id
  {
    if |users| == 0 then []
    else (if users[0].id == id then [] else [users[0]]) + Remove(users[1..], id)
  }

  /** Looking an id up after appending a record: an earlier record carrying
      the id still wins; otherwise the appended record is found when it
      carries the id. */
  lemma {:induction false} FindAfterAppend(users: seq<User>, u: User, id: string)
    ensures Find(users + [u], id) ==
      if HasId(users, id) then Find(users, id) else if u.id == id then Some(u) else None
  {
    if |users| > 0 {
      assert (users + [u])[1..] == users[1..] + [u];
      FindAfterAppend(users[1..], u, id);
      if users[0].id != id && HasId(users, id) {
        var i :| 0 <= i < |users| && users[i].id == id;
        assert users[1..][i - 1].id == id;
      }
    }
  }

  /** Appending a record whose id is new keeps the ids unique. */
  lemma AppendKeepsIdsUnique(users: seq<User>, u: User)
    requires UniqueIds(users) && !HasId(users, u.id)
    ensures UniqueIds(users + [u])
  {
    var r := users + [u];
    forall i, j | 0 <= i < j < |r| ensures r[i].id != r[j].id {
      if j == |users| { assert r[i] == users[i]; }
    }
  }

  /** Replacing an id that no record carries changes nothing. */
  lemma ReplaceAbsent(users: seq<User>, id: string, replacement: User)
    requires !HasId(users, id)
    ensures Replace(users, id, replacement) == users
  {
    var r := Replace(users, id, replacement);
    assert forall i | 0 <= i < |users| :: r[i] == users[i];
  }

  /** A replacement that carries the replaced id leaves every record's id where
      it was, so unique ids stay unique. */
  lemma ReplaceKeepsIds(users: seq<User>, id: string, replacement: User)
    requires replacement.id == id
    ensures forall i | 0 <= i < |users| :: Replace(users, id, replacement)[i].id == users[i].id
    ensures UniqueIds(users) ==> UniqueIds(Replace(users, id, replacement))
    ensures forall other :: HasId(Replace(users, id, replacement), other) <==> HasId(users, other)
  {
    var r := Replace(users, id, replacement);
    forall other ensures HasId(r, other) <==> HasId(users, other) {
      if HasId(r, other) {
        var i :| 0 <= i < |r| && r[i].id == other;
        assert users[i].id == other;
      }
      if HasId(users, other) {
        var i :| 0 <= i < |users| && users[i].id == other;
        assert r[i].id == other;
      }
    }
  }

  /** After replacing an id that some record carries, looking it up finds the
      replacement. */
  lemma FindAfterReplace(users: seq<User>, id: string, replacement: User)
    requires replacement.id == id && HasId(users, id)
    ensures Find(Replace(users, id, replacement), id) == Some(replacement)
  {
    var r := Replace(users, id, replacement);
    ReplaceKeepsIds(users, id, replacement);
    var found := Find(r, id);
    var i :| 0 <= i < |r| && r[i] == found.value && found.value.id == id && NoIdBefore(r, id, i);
    assert users[i].id == id;
  }

  /** Replacing twice with the same record is replacing once. */
  lemma ReplaceIdempotent(users: seq<User>, id: string, replacement: User)
    requires replacement.id == id
    ensures Replace(Replace(users, id, replacement), id, replacement) == Replace(users, id, replacement)
  {
    var once := Replace(users, id, replacement);
    var twice := Replace(once, id, replacement);
    forall i | 0 <= i < |users| ensures twice[i] == once[i] {
    }
  }

  /** Removing an id that no record carries changes nothing. */
  lemma {:induction false} RemoveAbsent(users: seq<User>, id: string)
    requires !HasId(users, id)
    ensures Remove(users, id) == users
  {
    if |users| > 0 {
      assert !HasId(users[1..], id) by {
        forall i | 0 <= i < |users| - 1 ensures users[1..][i].id != id {
          assert users[1..][i] == users[i + 1];
        }
      }
      RemoveAbsent(users[1..], id);
      assert users == [users[0]] + users[1..];
    }
  }

  /** Removal keeps the relative order of what remains: filtering a
      concatenation is concatenating the filtered parts. */
  lemma {:induction false} RemoveAppend(a: seq<User>, b: seq<User>, id: string)
    ensures Remove(a + b, id) == Remove(a, id) + Remove(b, id)
  {
    if |a| > 0 {
      assert (a + b)[1..] == a[1..] + b;
      RemoveAppend(a[1..], b, id);
    } else {
      assert a + b == b;
    }
  }

  /** Deleting twice leaves the same collection as deleting once. */
  lemma RemoveIdempotent(users: seq<User>, id: string)
    ensures Remove(Remove(users, id), id) == Remove(users, id)
  {
    RemoveAbsent(Remove(users, id), id);
  }

  /** Removing one id does not change what looking up any other id finds. */
  lemma {:induction false} FindAfterRemove(users: seq<User>, id: string, other: string)
    requires other != id
    ensures Find(Remove(users, id), other) == Find(users, other)
  {
    if |users| > 0 {
      FindAfterRemove(users[1..], id, other);
      var rest := Remove(users[1..], id);
      if users[0].id != id {
        assert Remove(users, id) == [users[0]] + rest;
        assert ([users[0]] + rest)[1..] == rest;
      } else {
        assert Remove(users, id) == rest;
      }
    }
  }

  /** An id occurs in a non-empty collection when the first record or one of
      the rest carries it. */
  lemma HasIdUncons(users: seq<User>, id: string)
    requires |users| > 0
    ensures HasId(users, id) <==> users[0].id == id || HasId(users[1..], id)
  {
    if HasId(users, id) && users[0].id != id {
      var i :| 0 <= i < |users| && users[i].id == id;
      assert users[1..][i - 1].id == id;
    }
    if HasId(users[1..], id) {
      var i :| 0 <= i < |users| - 1 && users[1..][i].id == id;
      assert users[i + 1].id == id;
    }
  }

  /** With unique ids, the rest of a collection has unique ids and does not
      carry the first record's id. */
  lemma UniqueIdsUncons(users: seq<User>)
    requires UniqueIds(users) && |users| > 0
    ensures UniqueIds(users[1..]) && !HasId(users[1..], users[0].id)
  {
    var tail := users[1..];
    forall i, j | 0 <= i < j < |tail| ensures tail[i].id != tail[j].id {
      assert tail[i] == users[i + 1] && tail[j] == users[j + 1];
    }
    forall i | 0 <= i < |tail| ensures tail[i].id != users[0].id {
      assert tail[i] == users[i + 1];
    }
  }

  /** Removal keeps unique ids unique. */
  lemma {:induction false} RemoveKeepsIdsUnique(users: seq<User>, id: string)
    requires UniqueIds(users)
    ensures UniqueIds(Remove(users, id))
  {
    if |users| > 0 {
      UniqueIdsUncons(users);
      RemoveKeepsIdsUnique(users[1..], id);
      var rest := Remove(users[1..], id);
      if users[0].id != id {
        var r := [users[0]] + rest;
        forall i, j | 0 <= i < j < |r| ensures r[i].id != r[j].id {
          if i == 0 {
            assert r[j] in rest;
          } else {
            assert r[i] == rest[i - 1] && r[j] == rest[j - 1];
          }
        }
      }
    }
  }

  /** With unique ids, deleting an id that is present removes exactly one record. */
  lemma {:induction false} RemoveCount(users: seq<User>, id: string)
    requires UniqueIds(users)
    ensures |Remove(users, id)| == if HasId(users, id) then |users| - 1 else |users|
  {
    if |users| > 0 {
      UniqueIdsUncons(users);
      HasIdUncons(users, id);
      RemoveCount(users[1..], id);
      if users[0].id == id {
        RemoveAbsent(users[1..], id);
      }
    }
  }

  /** Appending a validated record keeps every record validated. */
  lemma AppendKeepsStored(users: seq<User>, u: User)
    requires AllStored(users) && IsStoredRecord(u)
    ensures AllStored(users + [u])
  {
    forall v | v in users + [u] ensures IsStoredRecord(v) {
      if v != u { assert v in users; }
    }
  }

  /** Replacing records by a validated record keeps every record validated. */
  lemma ReplaceKeepsStored(users: seq<User>, id: string, replacement: User)
    requires AllStored(users) && IsStoredRecord(replacement)
    ensures AllStored(Replace(users, id, replacement))
  {
    var r := Replace(users, id, replacement);
    forall v | v in r ensures IsStoredRecord(v) {
      var i :| 0 <= i < |r| && r[i] == v;
      if users[i].id != id { assert users[i] in users; }
    }
  }

  /** Removing records keeps every remaining record validated. */
  lemma RemoveKeepsStored(users: seq<User>, id: string)
    requires AllStored(users)
    ensures AllStored(Remove(users, id))
  {
  }
}
