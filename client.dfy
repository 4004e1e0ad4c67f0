/** The store-backed variant (main.jsx): each handler first sends one
    statement to the shared `gifts` table, then, depending on the reply,
    reconciles the browser's cached copy of the list and sets the messages. */
module Client {
  import opened Gifts
  import opened Catalog
  import opened Store
  import Csv
  import Messages

  class RegistryClient {
    /** The cached list the page renders. */
    var gifts: seq<Gift>
    var selectedGiftId: Option<int>
    var showConfirmModal: bool
    var purchaserName: string
    var errorMessage: string
    var successMessage: string
    /** The table every client talks to. */
    const store: CatalogStore

    /** The cached gifts are consistent and the table keeps its invariant. */
    ghost predicate Valid()
      reads this, store
    {
      AllConsistent(gifts) && store.Valid()
    }

    /** A page whose cache holds `loaded`, the rows the initial query read. */
    constructor (shared: CatalogStore, loaded: seq<Gift>)
      requires shared.Valid() && AllConsistent(loaded)
      ensures Valid() && store == shared && gifts == loaded
      ensures selectedGiftId == None && !showConfirmModal
      ensures purchaserName == "" && errorMessage == "" && successMessage == ""
    {
      store := shared;
      gifts := loaded;
      selectedGiftId := None;
      showConfirmModal := false;
      purchaserName := "";
      errorMessage := "";
      successMessage := "";
    }

    /** The name field of the confirmation dialog. */
    method EnterName(name: string)
      modifies this`purchaserName
      ensures purchaserName == name
    {
      purchaserName := name;
    }

    /** `handlePurchaseClick`, on the cached list: opens the confirmation
        for a gift the cache shows as available, and refuses one it shows
        as purchased. The source dereferences the `find` result, so the id
        must be cached. */
    method HandlePurchaseClick(giftId: int)
      requires Find(gifts, giftId).Some?
      modifies this
      ensures gifts == old(gifts) && purchaserName == old(purchaserName)
      ensures successMessage == old(successMessage)
      ensures old(Find(gifts, giftId)).value.status == Purchased ==>
        errorMessage == Messages.AlreadyTaken &&
        selectedGiftId == old(selectedGiftId) && showConfirmModal == old(showConfirmModal)
      ensures old(Find(gifts, giftId)).value.status == Available ==>
        errorMessage == old(errorMessage) && selectedGiftId == Some(giftId) && showConfirmModal
    {
      var gift := Find(gifts, giftId).value;
      if gift.status == Purchased {
        errorMessage := Messages.AlreadyTaken;
        return;
      }
      selectedGiftId := Some(giftId);
      showConfirmModal := true;
    }

    /** `confirmPurchase`: the guarded claim in the table decides. A thrown
        call and a claim that matches no row leave the cache untouched and
        report different messages; only a returned row marks the cached
        copy purchased. A claim whose reply is lost still takes the gift in
        the table while the page reports the failure. `cacheNow` is the
        second clock reading the cache update takes. */
    method ConfirmPurchase(now: Timestamp, cacheNow: Timestamp, d: Delivery)
      requires Valid()
      modifies this, store
      ensures Valid() && selectedGiftId == old(selectedGiftId)
      ensures store.Snapshot() ==
        Step(old(store.Snapshot()), Sent(d, ClaimOp(old(selectedGiftId), old(purchaserName), now)))
      ensures d != Replied ==>
        gifts == old(gifts) && errorMessage == Messages.ClaimFailed && successMessage == old(successMessage) &&
        showConfirmModal == old(showConfirmModal) && purchaserName == old(purchaserName)
      ensures d == Replied && !Claimable(old(store.rows), old(selectedGiftId)) ==>
        gifts == old(gifts) && errorMessage == Messages.AlreadyTaken && successMessage == old(successMessage) &&
        showConfirmModal == old(showConfirmModal) && purchaserName == old(purchaserName)
      ensures d == Replied && Claimable(old(store.rows), old(selectedGiftId)) ==>
        gifts == MarkPurchased(old(gifts), old(selectedGiftId).value, old(purchaserName), cacheNow) &&
        errorMessage == old(errorMessage) && successMessage == Messages.ThankYou &&
        !showConfirmModal && purchaserName == ""
      ensures d != NeverReached && Claimable(old(store.rows), old(selectedGiftId)) ==>
        var id := old(selectedGiftId).value;
        store.rows[id].status == Purchased && store.rows[id].purchaserName == old(purchaserName)
      ensures d == Replied && Claimable(old(store.rows), old(selectedGiftId)) ==>
        var id := old(selectedGiftId).value;
        forall i :: 0 <= i < |gifts| && gifts[i].id == id ==>
          gifts[i].status == store.rows[id].status && gifts[i].purchaserName == store.rows[id].purchaserName
    {
      var reply := store.Claim(selectedGiftId, purchaserName, now, d);
      if reply.Thrown? {
        errorMessage := Messages.ClaimFailed;
        return;
      }
      if |reply.value| == 0 {
        errorMessage := Messages.AlreadyTaken;
        return;
      }
      gifts := MarkPurchased(gifts, selectedGiftId.value, purchaserName, cacheNow);
      showConfirmModal := false;
      purchaserName := "";
      successMessage := Messages.ThankYou;
    }

    /** `addNewGift`: inserts a blank row and appends exactly the row the
        table returned. */
    method AddNewGift(d: Delivery)
      requires Valid()
      modifies this, store
      ensures Valid()
      ensures store.Snapshot() == Step(old(store.Snapshot()), Sent(d, InsertOp))
      ensures d != Replied ==> gifts == old(gifts) && errorMessage == Messages.AddFailed && successMessage == old(successMessage)
      ensures d == Replied ==>
        gifts == old(gifts) + [BlankGift(old(store.nextId))] &&
        gifts[|gifts| - 1] == store.rows[old(store.nextId)] &&
        errorMessage == old(errorMessage) && successMessage == Messages.Added
      ensures selectedGiftId == old(selectedGiftId) && showConfirmModal == old(showConfirmModal)
      ensures purchaserName == old(purchaserName)
    {
      var reply := store.Insert(d);
      if reply.Thrown? {
        errorMessage := Messages.AddFailed;
        return;
      }
      gifts := gifts + [reply.value[0]];
      successMessage := Messages.Added;
    }

    /** `updateGift`: writes one field in the table and in the cache. */
    method UpdateGift(id: int, e: Edit, d: Delivery)
      requires Valid()
      modifies this, store
      ensures Valid()
      ensures store.Snapshot() == Step(old(store.Snapshot()), Sent(d, UpdateOp(id, e)))
      ensures d != Replied ==> gifts == old(gifts) && errorMessage == Messages.UpdateFailed
      ensures d == Replied ==> gifts == UpdateAll(old(gifts), id, e) && errorMessage == old(errorMessage)
      ensures d == Replied && id in store.rows ==> Holds(store.rows[id], e)
      ensures d == Replied ==> forall i :: 0 <= i < |gifts| && gifts[i].id == id ==> Holds(gifts[i], e)
      ensures successMessage == old(successMessage) && selectedGiftId == old(selectedGiftId)
      ensures showConfirmModal == old(showConfirmModal) && purchaserName == old(purchaserName)
    {
      var reply := store.Update(id, e, d);
      if reply.Thrown? {
        errorMessage := Messages.UpdateFailed;
        return;
      }
      gifts := UpdateAll(gifts, id, e);
    }

    /** `deleteGift`: removes the row and filters it out of the cache. */
    method DeleteGift(id: int, d: Delivery)
      requires Valid()
      modifies this, store
      ensures Valid()
      ensures store.Snapshot() == Step(old(store.Snapshot()), Sent(d, DeleteOp(id)))
      ensures d != Replied ==> gifts == old(gifts) && errorMessage == Messages.DeleteFailed && successMessage == old(successMessage)
      ensures d == Replied ==>
        gifts == Remove(old(gifts), id) && id !in store.rows &&
        errorMessage == old(errorMessage) && successMessage == Messages.Deleted
      ensures selectedGiftId == old(selectedGiftId) && showConfirmModal == old(showConfirmModal)
      ensures purchaserName == old(purchaserName)
    {
      var reply := store.Delete(id, d);
      if reply.Thrown? {
        errorMessage := Messages.DeleteFailed;
        return;
      }
      gifts := Remove(gifts, id);
      successMessage := Messages.Deleted;
    }

    /** `resetGiftStatus`: clears the purchase in the table and in the
        cache; the gift can then be claimed again. */
    method ResetGiftStatus(id: int, d: Delivery)
      requires Valid()
      modifies this, store
      ensures Valid()
      ensures store.Snapshot() == Step(old(store.Snapshot()), Sent(d, ResetOp(id)))
      ensures d != Replied ==> gifts == old(gifts) && errorMessage == Messages.ResetFailed && successMessage == old(successMessage)
      ensures d == Replied ==>
        gifts == ResetAll(old(gifts), id) && errorMessage == old(errorMessage) && successMessage == Messages.Reset
      ensures d == Replied && id in old(store.rows) ==> Claimable(store.rows, Some(id))
      ensures selectedGiftId == old(selectedGiftId) && showConfirmModal == old(showConfirmModal)
      ensures purchaserName == old(purchaserName)
    {
      var reply := store.Reset(id, d);
      if reply.Thrown? {
        errorMessage := Messages.ResetFailed;
        return;
      }
      gifts := ResetAll(gifts, id);
      successMessage := Messages.Reset;
    }

    /** The content of the file `exportToCSV` downloads, from the cache. */
    method ExportToCsv() returns (content: string)
      ensures content == Csv.Export(gifts)
    {
      content := Csv.Export(gifts);
    }
  }

  /** Two guests on two pages pick the same available gift before either
      page learns of the other's purchase. The first confirmation wins; the
      second is told the gift is taken and its page still shows it
      available. */
  method CompetingGuests() returns (first: string, second: string, secondCache: Status)
    ensures first == Messages.ThankYou
    ensures second == Messages.AlreadyTaken && secondCache == Available
  {
    var shared := new CatalogStore();
    var inserted := shared.Insert(Replied);
    var ana := new RegistryClient(shared, inserted.value);
    var carlos := new RegistryClient(shared, inserted.value);

    ana.HandlePurchaseClick(1);
    carlos.HandlePurchaseClick(1);
    ana.EnterName("Ana");
    carlos.EnterName("Carlos");
    ana.ConfirmPurchase("2024-02-01T10:00:00.000Z", "2024-02-01T10:00:00.001Z", Replied);
    carlos.ConfirmPurchase("2024-02-01T10:00:05.000Z", "2024-02-01T10:00:05.001Z", Replied);
    first := ana.successMessage;
    second := carlos.errorMessage;
    secondCache := carlos.gifts[0].status;
  }

  /** A purchased gift that the administrator resets is claimed by the
      next guest who confirms it. */
  method ClaimAfterReset() returns (refused: string, claimed: string, buyer: string)
    ensures refused == Messages.AlreadyTaken
    ensures claimed == Messages.ThankYou && buyer == "Dana"
  {
    var shared := new CatalogStore();
    var inserted := shared.Insert(Replied);
    var _ := shared.Claim(Some(1), "Ana", "2024-02-01T10:00:00.000Z", Replied);
    var dana := new RegistryClient(shared, inserted.value);

    dana.HandlePurchaseClick(1);
    dana.EnterName("Dana");
    dana.ConfirmPurchase("2024-02-02T09:00:00.000Z", "2024-02-02T09:00:00.001Z", Replied);
    refused := dana.errorMessage;

    dana.ResetGiftStatus(1, Replied);
    dana.ConfirmPurchase("2024-02-02T09:05:00.000Z", "2024-02-02T09:05:00.001Z", Replied);
    claimed := dana.successMessage;
    buyer := shared.rows[1].purchaserName;
  }

  /** A guest's claim commits but its reply is lost: the page reports the
      failure and keeps the dialog open. When the guest confirms again, the
      guard matches no row, so they are told the gift is taken, while the
      table records them as its buyer. */
  method LostReplyClaim() returns (first: string, retry: string, buyer: string)
    ensures first == Messages.ClaimFailed
    ensures retry == Messages.AlreadyTaken && buyer == "Ana"
  {
    var shared := new CatalogStore();
    var inserted := shared.Insert(Replied);
    var ana := new RegistryClient(shared, inserted.value);

    ana.HandlePurchaseClick(1);
    ana.EnterName("Ana");
    ana.ConfirmPurchase("2024-02-01T10:00:00.000Z", "2024-02-01T10:00:00.001Z", ReplyLost);
    first := ana.errorMessage;
    ana.ConfirmPurchase("2024-02-01T10:00:30.000Z", "2024-02-01T10:00:30.001Z", Replied);
    retry := ana.errorMessage;
    buyer := shared.rows[1].purchaserName;
  }
}
