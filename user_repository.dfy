/** The user repository (src/repositories/implementation/user.repository.ts):
    three operations over the users collection, used by the refactored
    authentication service. */
module UserRepositories {
  import opened Common
  import opened UserModel

  /** findByEmailOrPhone: the first stored user whose email is `email` or
      whose phone is `phone`, and nothing exactly when neither field matches
      any user. Registration and login both decide on it. */
  function FindByEmailOrPhone(rows: seq<User>, email: string, phone: string): (r: Option<User>)
    ensures r.Some? ==> r.value in rows && (r.value.email == email || r.value.phone == phone)
    ensures r.None? <==> forall u :: u in rows ==> u.email != email && u.phone != phone
  {
    FindOne(rows, EmailOrPhone(email, phone))
  }

  class UserRepository {
    const model: UserCollection

    constructor (model: UserCollection)
      ensures this.model == model
    {
      this.model := model;
    }

    /** findById: the stored user with that id, and nothing exactly when no
        user has it. */
    method FindById(id: string) returns (r: Option<User>)
      ensures r == UserModel.FindOne(model.rows, ById(id))
      ensures r.Some? ==> r.value in model.rows && r.value.id == id
      ensures r.None? <==> forall u :: u in model.rows ==> u.id != id
    {
      r := UserModel.FindOne(model.rows, ById(id));
    }

    /** findOne(filter): the first stored user the filter matches. */
    method FindOne(filter: Filter) returns (r: Option<User>)
      ensures r == UserModel.FindOne(model.rows, filter)
      ensures r.Some? ==> r.value in model.rows && Matches(r.value, filter)
      ensures r.None? <==> forall u :: u in model.rows ==> !Matches(u, filter)
    {
      r := UserModel.FindOne(model.rows, filter);
    }

    /** createUser: adds exactly one user with the given fields and returns it. */
    method CreateUser(f: UserFields) returns (r: Completion<User>)
      requires model.Valid()
      modifies model
      ensures model.Valid()
      ensures match AfterCreate(old(model.State()), f)
              case Threw(e) => r == Threw(e) && model.State() == old(model.State())
              case Returned(p) => r == Returned(p.1) && model.State() == p.0
      ensures r.Returned? ==>
                && model.rows == old(model.rows) + [r.value]
                && r.value == Stored(r.value.id, f)
                && (forall u :: u in old(model.rows) ==> u.id != r.value.id)
    {
      CreateAddsExactlyOne(model.State(), f);
      r := model.Create(f);
    }

    /** updateUser: overwrites at most the first user the filter matches;
        every other user is left as it was. */
    method UpdateUser(filter: Filter, update: User) returns (r: Completion<()>)
      requires model.Valid()
      modifies model
      ensures model.Valid()
      ensures match AfterUpdateOne(old(model.State()), filter, update)
              case Threw(e) => r == Threw(e) && model.State() == old(model.State())
              case Returned(t) => r == Returned(()) && model.State() == t
      ensures |model.rows| == |old(model.rows)|
      ensures forall j :: 0 <= j < |old(model.rows)| && !Matches(old(model.rows)[j], filter) ==>
                model.rows[j] == old(model.rows)[j]
    {
      UpdateOneTouchesOnlyMatch(model.State(), filter, update);
      r := model.UpdateOne(filter, update);
    }
  }
}
