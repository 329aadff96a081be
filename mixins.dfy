/**
 * The abstract base model of common/mixins.py: creation and update stamps (TimestampMixin) and
 * soft deletion (SoftDeleteMixin). `save` persists the row; the only field it touches itself is
 * the `auto_now` update stamp.
 */
module SoftDelete {
  import opened Wrappers
  import opened Users

  /** The three soft-deletion fields of a row. */
  datatype Deletion = Deletion(isDeleted: bool, deletedAt: Option<int>, deletedBy: Option<UserId>)

  /** The deletion fields of a row that was never deleted: the field defaults. */
  const NotDeleted := Deletion(false, None, None)

  /** The deletion fields `soft_delete(user)` writes at time `now`. */
  function DeletedBy(user: Option<UserId>, now: int): Deletion {
    Deletion(true, Some(now), user)
  }

  class BaseModel {
    var createdAt: int
    var updatedAt: int
    var createdBy: Option<UserId>
    var updatedBy: Option<UserId>
    var isDeleted: bool
    var deletedAt: Option<int>
    var deletedBy: Option<UserId>

    function DeletionFields(): Deletion
      reads this
    {
      Deletion(isDeleted, deletedAt, deletedBy)
    }

    /** A row created at `now`: both stamps are `now`, no user is recorded, and it is not deleted. */
    constructor (now: int)
      ensures createdAt == now && updatedAt == now
      ensures createdBy == None && updatedBy == None
      ensures DeletionFields() == NotDeleted
    {
      createdAt, updatedAt := now, now;
      createdBy, updatedBy := None, None;
      isDeleted, deletedAt, deletedBy := false, None, None;
    }

    /** `save`: the `auto_now` field takes the current time. */
    method Save(now: int)
      modifies this`updatedAt
      ensures updatedAt == now
    {
      updatedAt := now;
    }

    /**
     * `soft_delete(user)`: marks the row deleted at `now` by `user` (possibly nobody) and saves;
     * the creation stamps and `updated_by` stay as they were.
     */
    method SoftDelete(user: Option<UserId>, now: int)
      modifies this`isDeleted, this`deletedAt, this`deletedBy, this`updatedAt
      ensures DeletionFields() == DeletedBy(user, now)
      ensures updatedAt == now
    {
      isDeleted := true;
      deletedAt := Some(now);
      deletedBy := user;
      Save(now);
    }

    /** `restore`: clears the three deletion fields and saves. */
    method Restore(now: int)
      modifies this`isDeleted, this`deletedAt, this`deletedBy, this`updatedAt
      ensures DeletionFields() == NotDeleted
      ensures updatedAt == now
    {
      isDeleted := false;
      deletedAt := None;
      deletedBy := None;
      Save(now);
    }
  }

  /**
   * Deleting and then restoring a row leaves its deletion fields as a new row has them, and its
   * creation stamps as they were.
   */
  method DeleteThenRestore(row: BaseModel, user: Option<UserId>, t1: int, t2: int)
    modifies row
    ensures row.DeletionFields() == NotDeleted
    ensures row.createdAt == old(row.createdAt) && row.createdBy == old(row.createdBy)
    ensures row.updatedBy == old(row.updatedBy) && row.updatedAt == t2
  {
    row.SoftDelete(user, t1);
    row.Restore(t2);
  }

  /**
   * Deleting an already deleted row keeps it deleted and only re-stamps the time and the user:
   * the second call's fields win whatever the first call wrote.
   */
  method DeleteTwice(row: BaseModel, u1: Option<UserId>, u2: Option<UserId>, t1: int, t2: int)
    modifies row
    ensures row.isDeleted && row.deletedAt == Some(t2) && row.deletedBy == u2
    ensures row.createdAt == old(row.createdAt) && row.createdBy == old(row.createdBy)
    ensures row.updatedBy == old(row.updatedBy) && row.updatedAt == t2
  {
    row.SoftDelete(u1, t1);
    row.SoftDelete(u2, t2);
  }
}
