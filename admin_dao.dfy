/** AdminDAOImpl: the administrators, kept in an in-memory list rather than in the
    database. Saving replaces every admin with the same id; the list starts with one
    built-in administrator. */
module AdminDao {
  import opened Wrappers
  import opened Seqs
  import opened Text

  /** An administrator account; `password` is the encoded password. */
  datatype Admin = Admin(id: int, userName: string, password: string,
                         firstName: string, lastName: string, email: string)

  /** The admins whose id is `id`. */
  function HasAdminId(id: int): Admin -> bool {
    (a: Admin) => a.id == id
  }

  /** The admins whose user name equals `userName` ignoring case. */
  function UserNameIs(userName: string): Admin -> bool {
    (a: Admin) => EqualsIgnoreCase(a.userName, userName)
  }

  /** The admins equal to `entity`. */
  function IsAdmin(entity: Admin): Admin -> bool {
    (a: Admin) => a == entity
  }

  /** No two admins of the list share an id. */
  ghost predicate DistinctIds(admins: seq<Admin>) {
    forall i, j :: 0 <= i < |admins| && 0 <= j < |admins| && admins[i].id == admins[j].id ==> i == j
  }

  /** The list after save(entity): the admins with other ids, then the entity. */
  function Saved(admins: seq<Admin>, entity: Admin): seq<Admin> {
    Filter(admins, Not(HasAdminId(entity.id))) + [entity]
  }

  /** The list after deleteById(id). */
  function DeletedById(admins: seq<Admin>, id: int): seq<Admin> {
    Filter(admins, Not(HasAdminId(id)))
  }

  /** After save(e) exactly one admin has e's id, and the search by id finds e. When no
      admin had that id the list grows by one and the earlier admins stay as they were,
      in order; otherwise the admins with that id are replaced, not duplicated. */
  lemma SaveReplaces(admins: seq<Admin>, e: Admin)
    ensures var after := Saved(admins, e);
            First(after, HasAdminId(e.id)) == Some(e) &&
            Count(after, HasAdminId(e.id)) == 1 &&
            |after| == |admins| - Count(admins, HasAdminId(e.id)) + 1
    ensures Count(admins, HasAdminId(e.id)) == 0 ==> Saved(admins, e) == admins + [e]
  {
    var p := HasAdminId(e.id);
    var kept := Filter(admins, Not(p));
    FilterMembers(admins, Not(p));
    assert forall i :: 0 <= i < |kept| ==> !p(kept[i]);
    FilterNone(kept, p);
    CountSnoc(kept, e, p);
    assert FirstIndex(kept + [e], p) == |kept| by {
      FirstAfterNone(kept, e, p);
    }
    CountSplit(admins, p);
    if Count(admins, p) == 0 {
      CountZero(admins, p);
      FilterAll(admins, Not(p));
    }
  }

  /** A filter splits a list into the elements that pass and those that do not. */
  lemma {:induction false} CountSplit<T>(s: seq<T>, p: T -> bool)
    ensures Count(s, p) + Count(s, Not(p)) == |s|
  {
    if |s| != 0 {
      CountSplit(s[1..], p);
    }
  }

  lemma {:induction false} FirstAfterNone<T>(s: seq<T>, x: T, p: T -> bool)
    requires forall i :: 0 <= i < |s| ==> !p(s[i])
    requires p(x)
    ensures FirstIndex(s + [x], p) == |s|
  {
    if |s| != 0 {
      assert (s + [x])[1..] == s[1..] + [x];
      FirstAfterNone(s[1..], x, p);
    } else {
      assert (s + [x])[0] == x;
    }
  }

  /** After deleteById(id) no admin has that id; an id no admin has changes nothing. */
  lemma DeleteByIdRemoves(admins: seq<Admin>, id: int)
    ensures First(DeletedById(admins, id), HasAdminId(id)).None?
    ensures Count(admins, HasAdminId(id)) == 0 ==> DeletedById(admins, id) == admins
  {
    FilterMembers(admins, Not(HasAdminId(id)));
    if Count(admins, HasAdminId(id)) == 0 {
      CountZero(admins, HasAdminId(id));
      FilterAll(admins, Not(HasAdminId(id)));
    }
  }

  /** Saving and deleting keep the ids distinct. */
  lemma {:induction false} FilterKeepsDistinct(admins: seq<Admin>, p: Admin -> bool)
    requires DistinctIds(admins)
    ensures DistinctIds(Filter(admins, p))
  {
    if |admins| != 0 {
      var tail := admins[1..];
      assert DistinctIds(tail) by {
        forall i, j | 0 <= i < |tail| && 0 <= j < |tail| && tail[i].id == tail[j].id
          ensures i == j
        {
          assert admins[i + 1] == tail[i] && admins[j + 1] == tail[j];
        }
      }
      FilterKeepsDistinct(tail, p);
      var ft := Filter(tail, p);
      FilterMembers(tail, p);
      if p(admins[0]) {
        var f := Filter(admins, p);
        assert f == [admins[0]] + ft;
        forall i, j | 0 <= i < j < |f|
          ensures f[i].id != f[j].id
        {
          assert f[j] == ft[j - 1] && ft[j - 1] in tail;
          if i == 0 {
            var m :| 0 <= m < |tail| && tail[m] == ft[j - 1];
            assert admins[m + 1] == tail[m];
          } else {
            assert f[i] == ft[i - 1];
          }
        }
      }
    }
  }

  lemma SavedDistinct(admins: seq<Admin>, e: Admin)
    requires DistinctIds(admins)
    ensures DistinctIds(Saved(admins, e))
  {
    var kept := Filter(admins, Not(HasAdminId(e.id)));
    FilterKeepsDistinct(admins, Not(HasAdminId(e.id)));
    FilterMembers(admins, Not(HasAdminId(e.id)));
    assert forall i :: 0 <= i < |kept| ==> kept[i].id != e.id;
  }

  lemma RemoveFirstDistinct(admins: seq<Admin>, p: Admin -> bool)
    requires DistinctIds(admins)
    ensures DistinctIds(RemoveFirst(admins, p))
  {
    var k := FirstIndex(admins, p);
    if k < |admins| {
      var r := RemoveFirst(admins, p);
      forall i, j | 0 <= i < |r| && 0 <= j < |r| && r[i].id == r[j].id
        ensures i == j
      {
        var i' := if i < k then i else i + 1;
        var j' := if j < k then j else j + 1;
        assert r[i] == admins[i'] && r[j] == admins[j'];
      }
    }
  }

  class AdminStore {
    var admins: seq<Admin>

    /** No two stored admins share an id. */
    ghost predicate Valid()
      reads this
    {
      DistinctIds(admins)
    }

    /** The list starts with the built-in administrator, id 1000 and user name "admin";
        `encodedPassword` is the encoding of its password. */
    constructor (encodedPassword: string)
      ensures Valid()
      ensures admins == [Admin(1000, "admin", encodedPassword, "Admin", "System", "admin@example.com")]
    {
      admins := [Admin(1000, "admin", encodedPassword, "Admin", "System", "admin@example.com")];
    }

    /** save: removes every admin with the entity's id, then appends the entity. */
    method Save(entity: Admin)
      requires Valid()
      modifies this
      ensures Valid()
      ensures admins == Saved(old(admins), entity)
    {
      SavedDistinct(admins, entity);
      admins := Filter(admins, Not(HasAdminId(entity.id))) + [entity];
    }

    /** findById: the first admin with the id, or null. */
    function FindById(id: int): (r: Option<Admin>)
      reads this
      ensures r.None? <==> forall i :: 0 <= i < |admins| ==> admins[i].id != id
      ensures r.Some? ==> r.value.id == id &&
                          r.value == admins[FirstIndex(admins, HasAdminId(id))]
    {
      First(admins, HasAdminId(id))
    }

    /** findAll: a copy of the list. */
    method FindAll() returns (all: seq<Admin>)
      ensures all == admins
    {
      all := admins;
    }

    /** deleteById: removes every admin with the id. */
    method DeleteById(id: int)
      requires Valid()
      modifies this
      ensures Valid()
      ensures admins == DeletedById(old(admins), id)
    {
      FilterKeepsDistinct(admins, Not(HasAdminId(id)));
      admins := Filter(admins, Not(HasAdminId(id)));
    }

    /** delete: removes the first admin equal to the entity, if there is one. */
    method Delete(entity: Admin)
      requires Valid()
      modifies this
      ensures Valid()
      ensures admins == RemoveFirst(old(admins), IsAdmin(entity))
    {
      RemoveFirstDistinct(admins, IsAdmin(entity));
      admins := RemoveFirst(admins, IsAdmin(entity));
    }

    /** findByUserName: the first admin whose user name equals the given one ignoring
        case, or empty. */
    function FindByUserName(userName: string): (r: Option<Admin>)
      reads this
      ensures r.None? <==> forall i :: 0 <= i < |admins| ==> !EqualsIgnoreCase(admins[i].userName, userName)
      ensures r.Some? ==> r.value in admins && EqualsIgnoreCase(r.value.userName, userName)
      ensures r.Some? ==> r.value == admins[FirstIndex(admins, UserNameIs(userName))]
    {
      First(admins, UserNameIs(userName))
    }
  }

  /** Deleting an admin that is stored removes exactly one entry, and with distinct ids
      the search by its id then finds nothing. */
  lemma DeleteRemovesEntity(admins: seq<Admin>, entity: Admin)
    requires DistinctIds(admins) && entity in admins
    ensures |RemoveFirst(admins, IsAdmin(entity))| == |admins| - 1
    ensures First(RemoveFirst(admins, IsAdmin(entity)), HasAdminId(entity.id)).None?
  {
    var k := FirstIndex(admins, IsAdmin(entity));
    var m :| 0 <= m < |admins| && admins[m] == entity;
    assert k <= m;
    var r := RemoveFirst(admins, IsAdmin(entity));
    forall i | 0 <= i < |r|
      ensures r[i].id != entity.id
    {
      var i' := if i < k then i else i + 1;
      assert r[i] == admins[i'] && admins[k] == entity;
    }
  }

  /** The user name is matched ignoring case: "ADMIN", "Admin" and "aDmIn" all find the
      built-in "admin". */
  lemma UserNameIgnoresCase()
    ensures EqualsIgnoreCase("admin", "ADMIN") && EqualsIgnoreCase("admin", "Admin") && EqualsIgnoreCase("admin", "aDmIn")
    ensures !EqualsIgnoreCase("admin", "nonexistent")
  {
    assert Lower("ADMIN") == "admin";
    assert Lower("Admin") == "admin";
    assert Lower("aDmIn") == "admin";
    assert |Lower("nonexistent")| != |Lower("admin")|;
  }
}
