/** The user routes over an in-memory user collection: listing and reading users
    without their passwords, registration, login into the request's session, the
    self-only profile update and logout. Each handler is one atomic step here;
    under that reading, registration and the profile update keep login names unique
    across the collection. The handlers themselves await between the name check and
    the write, so interleaved requests are outside what this model promises. */
module Users {
  import opened Http
  import opened Text
  import opened Auth

  /** A user document. */
  datatype User = User(
    id: Id,
    login_name: string,
    password: string,
    first_name: string,
    last_name: string,
    email: Option<string>,
    description: Option<string>,
    occupation: Option<string>,
    location: Option<string>,
    avatar: Option<string>)

  /** A user as the read, login and profile-update routes send it: every field of
      the document except the password. */
  datatype PublicUser = PublicUser(
    id: Id,
    login_name: string,
    first_name: string,
    last_name: string,
    email: Option<string>,
    description: Option<string>,
    occupation: Option<string>,
    location: Option<string>,
    avatar: Option<string>)

  /** The user as sent back with the password removed: every other field kept. */
  function WithoutPassword(u: User): (v: PublicUser)
    ensures v.id == u.id && v.login_name == u.login_name
    ensures v.first_name == u.first_name && v.last_name == u.last_name
    ensures v.email == u.email && v.description == u.description && v.occupation == u.occupation
    ensures v.location == u.location && v.avatar == u.avatar
  {
    PublicUser(u.id, u.login_name, u.first_name, u.last_name, u.email, u.description,
               u.occupation, u.location, u.avatar)
  }

  /** The stripped view loses the password and nothing else: two users look alike
      exactly when they differ at most in their passwords. */
  lemma WithoutPasswordForgetsOnlyPassword(u: User, v: User)
    ensures WithoutPassword(u) == WithoutPassword(v) <==> u.(password := v.password) == v
  {
  }

  /** What login puts into the session. */
  function SessionUserOf(u: User): (s: SessionUser)
    ensures s.id == u.id && s.login_name == u.login_name
    ensures s.first_name == u.first_name && s.last_name == u.last_name
  {
    SessionUser(u.id, u.login_name, u.first_name, u.last_name)
  }

  /** Some user other than `except` already uses `name` as login name. */
  predicate LoginNameTaken(users: map<Id, User>, name: string, except: Option<Id>)
  {
    exists id :: id in users && users[id].login_name == name && except != Some(id)
  }

  /** No two users share a login name. */
  ghost predicate LoginNamesUnique(users: map<Id, User>)
  {
    forall a, b :: a in users && b in users && users[a].login_name == users[b].login_name ==> a == b
  }

  /** Replacing one user keeps login names unique when the replacement keeps its login
      name or takes one no other user holds: the check registration and the profile
      update both make before writing. */
  lemma ReplaceKeepsLoginNamesUnique(users: map<Id, User>, id: Id, u: User)
    requires LoginNamesUnique(users) && id in users
    requires u.login_name == users[id].login_name || !LoginNameTaken(users, u.login_name, Some(id))
    ensures LoginNamesUnique(users[id := u])
  {
  }

  /** The URL a profile update stores as the avatar: the uploaded file's, under
      `avatars/<id>-<millis><ext>`, when a file came with the request. */
  function AvatarUrl(avatarFile: Option<Upload>, id: Id, millis: nat, bucket: string, region: string): (url: Option<string>)
    ensures url.Some? <==> avatarFile.Some?
    ensures url.Some? ==> url.value == UploadUrl(bucket, region, "avatars", id, millis, avatarFile.value)
  {
    if avatarFile.Some? then Some(UploadUrl(bucket, region, "avatars", id, millis, avatarFile.value)) else None
  }

  /** `r` is `u` after a profile update: each of the names and the profile fields
      holds the supplied value when there is one (the empty string included), the
      avatar holds the new URL when there is one, and every other field, the id and
      password among them, is unchanged. The login name is handled on its own. */
  predicate ProfileFieldsApplied(u: User, r: User, firstName: Option<string>, lastName: Option<string>,
                                 description: Option<string>, occupation: Option<string>,
                                 location: Option<string>, email: Option<string>, avatarUrl: Option<string>)
  {
    && r.id == u.id && r.password == u.password
    && r.first_name == (if firstName.Some? then firstName.value else u.first_name)
    && r.last_name == (if lastName.Some? then lastName.value else u.last_name)
    && r.description == (if description.Some? then description else u.description)
    && r.occupation == (if occupation.Some? then occupation else u.occupation)
    && r.location == (if location.Some? then location else u.location)
    && r.email == (if email.Some? then email else u.email)
    && r.avatar == (if avatarUrl.Some? then avatarUrl else u.avatar)
  }

  /** The optional-field assignments of a profile update, one field after another;
      the login name is left as it is. */
  method AssignProfileFields(u: User, firstName: Option<string>, lastName: Option<string>,
                             description: Option<string>, occupation: Option<string>,
                             location: Option<string>, email: Option<string>, avatarUrl: Option<string>)
    returns (r: User)
    ensures r.login_name == u.login_name
    ensures ProfileFieldsApplied(u, r, firstName, lastName, description, occupation, location, email, avatarUrl)
  {
    var first, last := u.first_name, u.last_name;
    var desc, occ, loc, mail, avatar := u.description, u.occupation, u.location, u.email, u.avatar;
    if firstName.Some? { first := firstName.value; }
    if lastName.Some? { last := lastName.value; }
    if description.Some? { desc := description; }
    if occupation.Some? { occ := occupation; }
    if location.Some? { loc := location; }
    if email.Some? { mail := email; }
    if avatarUrl.Some? { avatar := avatarUrl; }
    r := User(u.id, u.login_name, u.password, first, last, mail, desc, occ, loc, avatar);
  }

  class UserStore {
    /** The user collection, by document id. */
    var users: map<Id, User>

    /** Each user is stored under its own id, and login names are unique. */
    ghost predicate Valid()
      reads this
    {
      && (forall id :: id in users ==> users[id].id == id)
      && LoginNamesUnique(users)
    }

    constructor ()
      ensures Valid() && users == map[]
    {
      users := map[];
    }

    /** The `findOne` query by login name, skipping the user `except`: finds a user
        holding `name` whenever there is one. */
    method FindByLoginName(name: string, except: Option<Id>) returns (found: Option<Id>)
      ensures found.Some? ==> found.value in users && users[found.value].login_name == name
      ensures found.Some? ==> except != Some(found.value)
      ensures found.None? <==> !LoginNameTaken(users, name, except)
    {
      var rest := users.Keys;
      while rest != {}
        invariant rest <= users.Keys
        invariant forall id :: id in users && id !in rest ==> users[id].login_name != name || except == Some(id)
        decreases rest
      {
        var id :| id in rest;
        if users[id].login_name == name && except != Some(id) {
          return Some(id);
        }
        rest := rest - {id};
      }
      return None;
    }

    /** GET /users: every user, each once, without the password. */
    method List() returns (result: seq<PublicUser>)
      requires Valid()
      ensures forall u :: u in result <==> u.id in users && u == WithoutPassword(users[u.id])
      ensures forall i, j :: 0 <= i < j < |result| ==> result[i].id != result[j].id
    {
      result := [];
      var rest := users.Keys;
      while rest != {}
        invariant rest <= users.Keys
        invariant forall u :: u in result <==> u.id in users && u.id !in rest && u == WithoutPassword(users[u.id])
        invariant forall i, j :: 0 <= i < j < |result| ==> result[i].id != result[j].id
        decreases rest
      {
        var id :| id in rest;
        result := result + [WithoutPassword(users[id])];
        rest := rest - {id};
      }
    }

    /** GET /users/:id: the user without the password, or 404 for an unknown id. */
    method Get(id: Id) returns (status: Status, user: Option<PublicUser>)
      ensures id in users ==> status == Ok && user == Some(WithoutPassword(users[id]))
      ensures id !in users ==> status == NotFound && user == None
    {
      if id !in users {
        return NotFound, None;
      }
      return Ok, Some(WithoutPassword(users[id]));
    }

    /** POST /users: registration. A missing or empty login name, password, first or
        last name gives 400, and so does a login name some user already has; in both
        cases nothing is added. Otherwise the new user is stored and sent back whole,
        password included. The new document id is an input. */
    method Create(loginName: Option<string>, password: Option<string>, firstName: Option<string>,
                  lastName: Option<string>, newId: Id)
      returns (status: Status, user: Option<User>)
      requires Valid()
      requires newId !in users
      modifies this
      ensures Valid()
      ensures status != Ok ==> users == old(users) && user == None
      ensures
        if !Supplied(loginName) || !Supplied(password) || !Supplied(firstName) || !Supplied(lastName) then
          status == BadRequest
        else if LoginNameTaken(old(users), loginName.value, None) then
          status == BadRequest
        else
          && status == Ok
          && user == Some(User(newId, loginName.value, password.value, firstName.value, lastName.value,
                               None, None, None, None, None))
          && users == old(users)[newId := user.value]
    {
      if !Supplied(loginName) || !Supplied(password) || !Supplied(firstName) || !Supplied(lastName) {
        return BadRequest, None;
      }
      var existed := FindByLoginName(loginName.value, None);
      if existed.Some? {
        return BadRequest, None;
      }
      var newUser := User(newId, loginName.value, password.value, firstName.value, lastName.value,
                          None, None, None, None, None);
      users := users[newId := newUser];
      return Ok, Some(newUser);
    }

    /** POST /auth/login: a missing or empty login name or password, an unknown login
        name and a wrong password all give 400 and leave the session alone. On success
        the session holds the user's id, login name and names, and the user is sent
        back without the password. The password check is plain string equality. */
    method Login(session: Session, loginName: Option<string>, password: Option<string>)
      returns (status: Status, user: Option<PublicUser>)
      requires Valid()
      modifies session
      ensures status != Ok ==> session.user == old(session.user) && user == None
      ensures status == Ok ==> IsAuthenticated(session).Proceed?
      ensures
        if !Supplied(loginName) || !Supplied(password) then status == BadRequest
        else if !LoginNameTaken(users, loginName.value, None) then status == BadRequest
        else forall id :: id in users && users[id].login_name == loginName.value ==>
          if users[id].password != password.value then status == BadRequest
          else
            && status == Ok
            && session.user == Some(SessionUserOf(users[id]))
            && user == Some(WithoutPassword(users[id]))
    {
      if !Supplied(loginName) || !Supplied(password) {
        return BadRequest, None;
      }
      var found := FindByLoginName(loginName.value, None);
      if found.None? {
        return BadRequest, None;
      }
      var u := users[found.value];
      if u.password != password.value {
        return BadRequest, None;
      }
      session.user := Some(SessionUserOf(u));
      return Ok, Some(WithoutPassword(u));
    }

    /** `user.save()` for a user already in the collection: the document is replaced,
        and login names stay unique because the caller has checked that no other user
        holds the new one. */
    method Save(u: User)
      requires Valid() && u.id in users
      requires u.login_name == users[u.id].login_name || !LoginNameTaken(users, u.login_name, Some(u.id))
      modifies this
      ensures Valid()
      ensures users == old(users)[u.id := u]
    {
      ReplaceKeepsLoginNamesUnique(users, u.id, u);
      users := users[u.id := u];
    }

    /** PATCH /users/:id: only the session user may update their own profile (403
        before any lookup); an unknown id gives 404. The login name changes only when
        a non-empty new one is supplied, and a name another user holds gives 400 with
        nothing changed. Each of the other profile fields changes only when supplied
        (an empty string counts as supplied), the avatar only when a file comes with
        the request, and the id and password never. The reply omits the password. The
        clock reading, bucket and region are inputs. */
    method UpdateProfile(session: Session?, id: Id, loginName: Option<string>,
                         firstName: Option<string>, lastName: Option<string>, email: Option<string>,
                         description: Option<string>, occupation: Option<string>,
                         location: Option<string>, avatarFile: Option<Upload>,
                         millis: nat, bucket: string, region: string)
      returns (status: Status, user: Option<PublicUser>)
      requires Valid()
      modifies this
      ensures Valid()
      ensures status != Ok ==> users == old(users) && user == None
      ensures IsAuthenticated(session).Unauthenticated? ==> status == Unauthorized
      ensures IsAuthenticated(session).Proceed? ==>
        if IsAuthenticated(session).user.id != id then status == Forbidden
        else if id !in old(users) then status == NotFound
        else
          var u := old(users)[id];
          if Supplied(loginName) && loginName.value != u.login_name
             && LoginNameTaken(old(users), loginName.value, Some(id)) then status == BadRequest
          else
            && status == Ok
            && id in users
            && users == old(users)[id := users[id]]
            && user == Some(WithoutPassword(users[id]))
            && users[id].login_name == (if Supplied(loginName) then loginName.value else u.login_name)
            && ProfileFieldsApplied(u, users[id], firstName, lastName, description, occupation, location,
                                    email, AvatarUrl(avatarFile, id, millis, bucket, region))
    {
      var g := IsAuthenticated(session);
      if g.Unauthenticated? {
        return Unauthorized, None;
      }
      if g.user.id != id {
        return Forbidden, None;
      }
      if id !in users {
        return NotFound, None;
      }
      var u := users[id];
      if Supplied(loginName) && loginName.value != u.login_name {
        var existed := FindByLoginName(loginName.value, Some(id));
        if existed.Some? {
          return BadRequest, None;
        }
        u := u.(login_name := loginName.value);
      }
      u := AssignProfileFields(u, firstName, lastName, description, occupation, location, email,
                               AvatarUrl(avatarFile, id, millis, bucket, region));
      Save(u);
      return Ok, Some(WithoutPassword(u));
    }

    /** POST /auth/logout: 401 without a logged-in session; otherwise the session no
        longer holds a user, so the guard refuses later requests on it. */
    method Logout(session: Session?) returns (status: Status)
      modifies session
      ensures old(IsAuthenticated(session)).Unauthenticated? ==>
        status == Unauthorized && (session != null ==> session.user == old(session.user))
      ensures old(IsAuthenticated(session)).Proceed? ==> status == Ok && session.user == None
      ensures IsAuthenticated(session).Unauthenticated?
    {
      if IsAuthenticated(session).Unauthenticated? {
        return Unauthorized;
      }
      session.user := None;
      return Ok;
    }
  }
}
