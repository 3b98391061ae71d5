/**
 * The bill collection and the three handlers that change it:
 * `/api/add-billing` (index.js:153-175), `/api/update-billing/:id`
 * (index.js:225-245) and `/api/delete-billing/:id` (index.js:212-221).
 *
 * Documents are kept in store order. The store-assigned `_id` is `key`, a
 * number handed out by the store from a counter, so it is fresh by
 * construction; the server-generated `generatingId` (a new ObjectId as a
 * string) is a parameter.
 */
module Bills {
  import opened Wrappers

  /** A bill document: `_id` (as `key`) and the fields add-billing stores. */
  datatype Bill = Bill(key: nat, generatingId: string, fullName: string, email: string,
                       phone: string, amount: string, time: int, addedUserEmail: string)

  /** The body of an add-billing request. */
  datatype BillFields = BillFields(fullName: string, email: string, phone: string,
                                   amount: string, time: int, addedUserEmail: string)

  /** The body of an update request, used as a `$set`: a field is set only when present. */
  datatype BillPatch = BillPatch(generatingId: Option<string>, fullName: Option<string>,
                                 email: Option<string>, phone: Option<string>,
                                 amount: Option<string>, time: Option<int>,
                                 addedUserEmail: Option<string>)

  const EmptyPatch := BillPatch(None, None, None, None, None, None, None)

  /** The document add-billing builds from its body and a generated id. */
  function NewBill(key: nat, generatingId: string, f: BillFields): Bill {
    Bill(key, generatingId, f.fullName, f.email, f.phone, f.amount, f.time, f.addedUserEmail)
  }

  /** The body fields a stored bill carries, without `_id` and `generatingId`. */
  function FieldsOf(b: Bill): BillFields {
    BillFields(b.fullName, b.email, b.phone, b.amount, b.time, b.addedUserEmail)
  }

  /** The document built by add-billing carries exactly the body, the given `_id` and the generated id. */
  lemma NewBillRoundTrip(key: nat, generatingId: string, f: BillFields)
    ensures var b := NewBill(key, generatingId, f);
            FieldsOf(b) == f && b.key == key && b.generatingId == generatingId
  {
  }

  /** `{$set: patch}` on one document: present fields overwrite, absent ones stay, `_id` stays. */
  function ApplyPatch(b: Bill, p: BillPatch): (r: Bill)
    ensures r.key == b.key
  {
    Bill(b.key,
         p.generatingId.GetOr(b.generatingId),
         p.fullName.GetOr(b.fullName),
         p.email.GetOr(b.email),
         p.phone.GetOr(b.phone),
         p.amount.GetOr(b.amount),
         p.time.GetOr(b.time),
         p.addedUserEmail.GetOr(b.addedUserEmail))
  }

  /** Setting the same fields again changes nothing. */
  lemma ApplyPatchIdempotent(b: Bill, p: BillPatch)
    ensures ApplyPatch(ApplyPatch(b, p), p) == ApplyPatch(b, p)
  {
  }

  /** An empty body leaves the document as it was. */
  lemma ApplyEmptyPatch(b: Bill)
    ensures ApplyPatch(b, EmptyPatch) == b
  {
  }

  /** Every `_id` occurs at most once. */
  ghost predicate UniqueKeys(bills: seq<Bill>) {
    forall i, j :: 0 <= i < j < |bills| ==> bills[i].key != bills[j].key
  }

  /** Position of the first document with `_id == key`, searched in store order. */
  function IndexOfKey(bills: seq<Bill>, key: nat): (r: Option<nat>)
    ensures r.Some? ==> r.value < |bills| && bills[r.value].key == key
                        && forall j :: 0 <= j < r.value ==> bills[j].key != key
    ensures r.None? <==> forall j :: 0 <= j < |bills| ==> bills[j].key != key
    decreases |bills|
  {
    if bills == [] then None
    else if bills[0].key == key then Some(0)
    else match IndexOfKey(bills[1..], key)
      case None => None
      case Some(i) => Some(i + 1)
  }

  /**
   * `updateOne({_id: key}, {$set: p})`: the first document with that key is
   * patched, every other position is untouched, and nothing is patched when
   * no document has the key.
   */
  function UpdateFirst(bills: seq<Bill>, key: nat, p: BillPatch): (r: seq<Bill>)
    ensures |r| == |bills|
    ensures IndexOfKey(bills, key).None? ==> r == bills
    ensures IndexOfKey(bills, key).Some?
            ==> r == bills[IndexOfKey(bills, key).value := ApplyPatch(bills[IndexOfKey(bills, key).value], p)]
    decreases |bills|
  {
    if bills == [] then []
    else if bills[0].key == key then [ApplyPatch(bills[0], p)] + bills[1..]
    else [bills[0]] + UpdateFirst(bills[1..], key, p)
  }

  /** `deleteOne({_id: key})`: drop the first document with that key, if any. */
  function DeleteFirst(bills: seq<Bill>, key: nat): seq<Bill>
    decreases |bills|
  {
    if bills == [] then []
    else if bills[0].key == key then bills[1..]
    else [bills[0]] + DeleteFirst(bills[1..], key)
  }

  /**
   * The delete removes exactly the position `IndexOfKey` finds: the
   * documents before and after it keep their order, and nothing changes
   * when no document has the key.
   */
  lemma {:induction false} DeleteFirstRemovesIndex(bills: seq<Bill>, key: nat)
    ensures IndexOfKey(bills, key).None? ==> DeleteFirst(bills, key) == bills
    ensures IndexOfKey(bills, key).Some?
            ==> DeleteFirst(bills, key) == bills[..IndexOfKey(bills, key).value] + bills[IndexOfKey(bills, key).value + 1..]
    decreases |bills|
  {
    if bills != [] {
      if bills[0].key == key {
        assert bills[..0] == [];
      } else {
        var tail := bills[1..];
        DeleteFirstRemovesIndex(tail, key);
        assert DeleteFirst(bills, key) == [bills[0]] + DeleteFirst(tail, key);
        match IndexOfKey(tail, key)
        case Some(i) =>
          assert IndexOfKey(bills, key) == Some(i + 1);
          assert DeleteFirst(tail, key) == tail[..i] + tail[i + 1..];
          assert bills[..i + 1] == [bills[0]] + tail[..i];
          assert bills[i + 2..] == tail[i + 1..];
        case None =>
          assert IndexOfKey(bills, key) == None;
          assert bills == [bills[0]] + tail;
      }
    }
  }

  /** An update keeps every `_id` where it was. */
  lemma UpdateKeepsKeys(bills: seq<Bill>, key: nat, p: BillPatch)
    ensures forall i :: 0 <= i < |bills| ==> UpdateFirst(bills, key, p)[i].key == bills[i].key
  {
  }

  /**
   * With unique keys, an update patches exactly the documents whose `_id`
   * is `key` and leaves every other document as it was; uniqueness is kept.
   */
  lemma UpdateOnlyTarget(bills: seq<Bill>, key: nat, p: BillPatch)
    requires UniqueKeys(bills)
    ensures var r := UpdateFirst(bills, key, p);
            && UniqueKeys(r)
            && (forall i :: 0 <= i < |bills| && bills[i].key == key ==> r[i] == ApplyPatch(bills[i], p))
            && (forall i :: 0 <= i < |bills| && bills[i].key != key ==> r[i] == bills[i])
  {
    var r := UpdateFirst(bills, key, p);
    UpdateKeepsKeys(bills, key, p);
    match IndexOfKey(bills, key)
    case None =>
    case Some(k) =>
      forall i | 0 <= i < |bills| && i != k ensures bills[i].key != bills[k].key {
      }
  }

  /** Where each remaining document sat before `deleteOne` removed position `k`. */
  lemma DeleteShifts(bills: seq<Bill>, key: nat, k: nat)
    requires IndexOfKey(bills, key) == Some(k)
    ensures var r := DeleteFirst(bills, key);
            && |r| == |bills| - 1
            && (forall i :: 0 <= i < k ==> r[i] == bills[i])
            && (forall i :: k <= i < |r| ==> r[i] == bills[i + 1])
  {
    DeleteFirstRemovesIndex(bills, key);
  }

  /** A delete keeps `_id`s unique. */
  lemma DeleteKeepsUnique(bills: seq<Bill>, key: nat)
    requires UniqueKeys(bills)
    ensures UniqueKeys(DeleteFirst(bills, key))
  {
    DeleteFirstRemovesIndex(bills, key);
    if IndexOfKey(bills, key).Some? {
      var k := IndexOfKey(bills, key).value;
      var r := DeleteFirst(bills, key);
      DeleteShifts(bills, key, k);
      forall i, j | 0 <= i < j < |r| ensures r[i].key != r[j].key {
        var i' := if i < k then i else i + 1;
        var j' := if j < k then j else j + 1;
        assert r[i] == bills[i'] && r[j] == bills[j'];
      }
    }
  }

  /** After removing position `k`, every remaining document is a stored one with another `_id`. */
  lemma DeleteLeavesNoTarget(bills: seq<Bill>, key: nat, k: nat)
    requires UniqueKeys(bills)
    requires IndexOfKey(bills, key) == Some(k)
    ensures forall b :: b in DeleteFirst(bills, key) ==> b in bills && b.key != key
  {
    var r := DeleteFirst(bills, key);
    DeleteShifts(bills, key, k);
    forall b | b in r ensures b in bills && b.key != key {
      var i :| 0 <= i < |r| && r[i] == b;
      var i' := if i < k then i else i + 1;
      assert r[i] == bills[i'];
      assert bills[i'].key != bills[k].key;
    }
  }

  /** After removing position `k`, every stored document with another `_id` remains. */
  lemma DeleteKeepsOthers(bills: seq<Bill>, key: nat, k: nat)
    requires IndexOfKey(bills, key) == Some(k)
    ensures forall b :: b in bills && b.key != key ==> b in DeleteFirst(bills, key)
  {
    var r := DeleteFirst(bills, key);
    DeleteShifts(bills, key, k);
    forall b | b in bills && b.key != key ensures b in r {
      var i :| 0 <= i < |bills| && bills[i] == b;
      if i < k {
        assert r[i] == b;
      } else {
        assert r[i - 1] == b;
      }
    }
  }

  /**
   * With unique keys, a delete removes exactly the document whose `_id` is
   * `key`: no document with that key remains, every other document remains,
   * the collection shrinks by one when the key was present, and uniqueness
   * is kept.
   */
  lemma DeleteOnlyTarget(bills: seq<Bill>, key: nat)
    requires UniqueKeys(bills)
    ensures var r := DeleteFirst(bills, key);
            && UniqueKeys(r)
            && (forall b :: b in r <==> b in bills && b.key != key)
            && |r| == (if IndexOfKey(bills, key).Some? then |bills| - 1 else |bills|)
  {
    DeleteKeepsUnique(bills, key);
    DeleteFirstRemovesIndex(bills, key);
    match IndexOfKey(bills, key)
    case None =>
    case Some(k) =>
      DeleteLeavesNoTarget(bills, key, k);
      DeleteKeepsOthers(bills, key, k);
  }

  /** `{success, message}` of add-billing. */
  datatype AddReply = AddReply(success: bool, message: string)

  /**
   * Update replies: `{success: true, message, data}` where `data` carries the
   * store's `matchedCount`, or `{success: false, message}`.
   */
  datatype UpdateReply = Updated(message: string, matchedCount: nat) | NotUpdated(message: string) {
    function Success(): bool { Updated? }
  }

  /** Delete reply `{success: true, data}` where `data` carries the store's `deletedCount`. */
  datatype DeleteReply = Deleted(deletedCount: nat)

  /** The bill collection, changed in place by `insertOne`, `updateOne` and `deleteOne`. */
  class BillStore {
    var bills: seq<Bill>
    /** The next `_id` the store hands out; every stored `_id` is below it. */
    var nextKey: nat

    ghost predicate Valid()
      reads this
    {
      UniqueKeys(bills) && forall i :: 0 <= i < |bills| ==> bills[i].key < nextKey
    }

    constructor ()
      ensures Valid() && bills == []
    {
      bills := [];
      nextKey := 0;
    }

    /**
     * `/api/add-billing`: append exactly one document built from the body and
     * a fresh `_id`; every existing document stays as it was. `insertOne`
     * always reports an `insertedId`, so the reply is always a success.
     */
    method AddBilling(generatingId: string, body: BillFields) returns (reply: AddReply)
      requires Valid()
      modifies this
      ensures Valid()
      ensures bills == old(bills) + [NewBill(old(nextKey), generatingId, body)]
      ensures forall b :: b in old(bills) ==> b.key != bills[|bills| - 1].key
      ensures reply == AddReply(true, "Success Created " + body.fullName)
    {
      var bill := NewBill(nextKey, generatingId, body);
      bills := bills + [bill];
      nextKey := nextKey + 1;
      reply := AddReply(true, "Success Created " + body.fullName);
    }

    /**
     * `/api/update-billing/:id`: `$set` the body on the document with that
     * `_id`. Success is decided by whether a document matched (even if the
     * body changes nothing); the message names the body's `fullName`, which
     * reads "undefined" when the body has none.
     */
    method UpdateBilling(key: nat, body: BillPatch) returns (reply: UpdateReply)
      requires Valid()
      modifies this
      ensures Valid() && nextKey == old(nextKey)
      ensures reply.Success() <==> exists b :: b in old(bills) && b.key == key
      ensures bills == UpdateFirst(old(bills), key, body)
      ensures forall i :: 0 <= i < |bills| && old(bills)[i].key != key ==> bills[i] == old(bills)[i]
      ensures forall i :: 0 <= i < |bills| && old(bills)[i].key == key ==> bills[i] == ApplyPatch(old(bills)[i], body)
      ensures reply.Success() ==> reply == Updated("successfully updated " + body.fullName.GetOr("undefined"), 1)
      ensures !reply.Success() ==> reply == NotUpdated("Couldn't update  the Bill") && bills == old(bills)
    {
      UpdateOnlyTarget(bills, key, body);
      UpdateKeepsKeys(bills, key, body);
      var matched := IndexOfKey(bills, key).Some?;
      bills := UpdateFirst(bills, key, body);
      if matched {
        reply := Updated("successfully updated " + body.fullName.GetOr("undefined"), 1);
      } else {
        reply := NotUpdated("Couldn't update  the Bill");
      }
    }

    /**
     * `/api/delete-billing/:id`: remove the document with that `_id`. A reply
     * is sent only when a document was deleted; otherwise the request gets
     * no response (`None`) and the collection is unchanged.
     */
    method DeleteBilling(key: nat) returns (reply: Option<DeleteReply>)
      requires Valid()
      modifies this
      ensures Valid() && nextKey == old(nextKey)
      ensures reply.Some? <==> exists b :: b in old(bills) && b.key == key
      ensures bills == DeleteFirst(old(bills), key)
      ensures forall b :: b in bills <==> b in old(bills) && b.key != key
      ensures reply.Some? ==> reply == Some(Deleted(1)) && |bills| == |old(bills)| - 1
      ensures reply.None? ==> bills == old(bills)
    {
      DeleteOnlyTarget(bills, key);
      DeleteFirstRemovesIndex(bills, key);
      var found := IndexOfKey(bills, key).Some?;
      bills := DeleteFirst(bills, key);
      if found {
        reply := Some(Deleted(1));
      } else {
        reply := None;
      }
    }
  }
}
