/** The in-memory variant (App.jsx): the component's state as an object
    whose handlers replace the `gifts` list and the confirmation and message
    state. Nothing is persisted. */
module LocalApp {
  import opened Gifts
  import opened Catalog
  import Csv
  import Messages

  /** The six gifts the component starts with, numbered 1 to 6 in order;
      gifts 2 and 6 are already purchased, the rest are available. */
  function SeedGifts(): (r: seq<Gift>)
    ensures |r| == 6 && forall i :: 0 <= i < |r| ==> r[i].id == i + 1
    ensures forall i :: 0 <= i < |r| ==> (r[i].status == Purchased <==> i == 1 || i == 5)
  {
    [ Gift(1, "Amazon", "https://amazon.com", "Juego de copas de cristal", "Para brindar en nuestra boda",
           1, 4599, Available, None, "", "https://placehold.co/300x200/E6C073/556B2F?text=Copas+de+Cristal"),
      Gift(2, "Tienda local", "", "Set de sábanas premium", "Tamaño king, algodón egipcio",
           1, 8950, Purchased, Some("2024-01-15T10:30:00"), "Ana", "https://placehold.co/300x200/E6C073/556B2F?text=Set+de+Sábanas"),
      Gift(3, "Walmart", "https://walmart.com", "Cafetera Nespresso", "Con lechera integrada",
           1, 19999, Available, None, "", "https://placehold.co/300x200/E6C073/556B2F?text=Cafetera+Nespresso"),
      Gift(4, "Linio", "https://linio.com", "Vajilla para 6 personas", "Porcelana blanca con detalles dorados",
           1, 12575, Available, None, "", "https://placehold.co/300x200/E6C073/556B2F?text=Vajilla"),
      Gift(5, "Tienda departamental", "", "Plancha a vapor", "Con función vertical",
           1, 6525, Available, None, "", "https://placehold.co/300x200/E6C073/556B2F?text=Plancha+a+Vapor"),
      Gift(6, "Etsy", "https://etsy.com", "Cuadro personalizado", "Retrato de la pareja en acuarela",
           1, 7850, Purchased, Some("2024-01-12T14:22:00"), "Carlos", "https://placehold.co/300x200/E6C073/556B2F?text=Cuadro+Personalizado") ]
  }

  /** The initial catalog satisfies both list invariants. */
  lemma SeedIsValid()
    ensures AllConsistent(SeedGifts()) && UniqueIds(SeedGifts())
  {
  }

  /** The first gift an administrator adds to the initial catalog gets id 7. */
  lemma SeedNextId()
    ensures NextId(SeedGifts()) == 7
  {
    NumberedNextId(SeedGifts());
  }

  /** The lookup of id 1 in the initial catalog finds its first gift, which
      is available. */
  lemma SeedFirstGift()
    ensures Find(SeedGifts(), 1) == Some(SeedGifts()[0]) && SeedGifts()[0].status == Available
  {
  }

  /** Some gift with `id` is already purchased. */
  predicate AnyPurchased(gs: seq<Gift>, id: int) {
    exists i :: 0 <= i < |gs| && gs[i].id == id && gs[i].status == Purchased
  }

  class LocalRegistry {
    var gifts: seq<Gift>
    var selectedGiftId: Option<int>
    var showConfirmModal: bool
    var purchaserName: string
    var errorMessage: string
    var successMessage: string

    /** Every gift is consistent and ids are unique. */
    ghost predicate Valid()
      reads this
    {
      AllConsistent(gifts) && UniqueIds(gifts)
    }

    constructor ()
      ensures Valid()
      ensures gifts == SeedGifts() && selectedGiftId == None && !showConfirmModal
      ensures purchaserName == "" && errorMessage == "" && successMessage == ""
    {
      gifts := SeedGifts();
      selectedGiftId := None;
      showConfirmModal := false;
      purchaserName := "";
      errorMessage := "";
      successMessage := "";
      SeedIsValid();
    }

    /** The name field of the confirmation dialog. */
    method EnterName(name: string)
      modifies this`purchaserName
      ensures purchaserName == name
    {
      purchaserName := name;
    }

    /** `handlePurchaseClick`: opens the confirmation for an available gift
        and refuses, with the already-taken message, for a purchased one.
        The gift is looked up with `find`; the source dereferences the
        result, so the id must be in the list. */
    method HandlePurchaseClick(giftId: int)
      requires Find(gifts, giftId).Some?
      modifies this
      ensures gifts == old(gifts) && purchaserName == old(purchaserName)
      ensures successMessage == old(successMessage)
      ensures old(Find(gifts, giftId)).value.status == Purchased ==>
        errorMessage == Messages.AlreadyTaken &&
        selectedGiftId == old(selectedGiftId) && showConfirmModal == old(showConfirmModal)
      ensures old(Find(gifts, giftId)).value.status == Available ==>
        errorMessage == old(errorMessage) && selectedGiftId == Some(giftId) && showConfirmModal
    {
      var gift := Find(gifts, giftId).value;
      if gift.status == Purchased {
        errorMessage := Messages.AlreadyTaken;
        return;
      }
      selectedGiftId := Some(giftId);
      showConfirmModal := true;
    }

    /** `confirmPurchase`: the guarded claim on the list. A purchased target
        keeps its purchaser and sets the already-taken message; the
        confirmation closes and the thank-you message is set in every case. */
    method ConfirmPurchase(now: Timestamp)
      requires Valid()
      modifies this
      ensures Valid()
      ensures old(selectedGiftId).None? ==> gifts == old(gifts)
      ensures old(selectedGiftId).Some? ==>
        gifts == ClaimAll(old(gifts), old(selectedGiftId).value, old(purchaserName), now)
      ensures errorMessage ==
        if old(selectedGiftId).Some? && AnyPurchased(old(gifts), old(selectedGiftId).value)
        then Messages.AlreadyTaken else old(errorMessage)
      ensures selectedGiftId == old(selectedGiftId) && !showConfirmModal && purchaserName == ""
      ensures successMessage == Messages.ThankYou
    {
      if selectedGiftId.Some? {
        var id := selectedGiftId.value;
        if exists i :: 0 <= i < |gifts| && gifts[i].id == id && gifts[i].status == Purchased {
          errorMessage := Messages.AlreadyTaken;
        }
        gifts := ClaimAll(gifts, id, purchaserName, now);
        SameIdsKeepUnique(gifts, old(gifts));
      }
      showConfirmModal := false;
      purchaserName := "";
      successMessage := Messages.ThankYou;
    }

    /** `addNewGift`: appends one blank gift under a fresh id. */
    method AddNewGift()
      requires Valid()
      modifies this`gifts
      ensures Valid()
      ensures gifts == AddBlank(old(gifts))
    {
      gifts := AddBlank(gifts);
    }

    /** `updateGift`. */
    method UpdateGift(id: int, e: Edit)
      requires Valid()
      modifies this`gifts
      ensures Valid()
      ensures gifts == UpdateAll(old(gifts), id, e)
    {
      gifts := UpdateAll(gifts, id, e);
      SameIdsKeepUnique(gifts, old(gifts));
    }

    /** `deleteGift`. */
    method DeleteGift(id: int)
      requires Valid()
      modifies this`gifts
      ensures Valid()
      ensures gifts == Remove(old(gifts), id)
    {
      gifts := Remove(gifts, id);
    }

    /** `resetGiftStatus`. */
    method ResetGiftStatus(id: int)
      requires Valid()
      modifies this`gifts
      ensures Valid()
      ensures gifts == ResetAll(old(gifts), id)
    {
      gifts := ResetAll(gifts, id);
      SameIdsKeepUnique(gifts, old(gifts));
    }

    /** The content of the file `exportToCSV` downloads. */
    method ExportToCsv() returns (content: string)
      ensures content == Csv.Export(gifts)
    {
      content := Csv.Export(gifts);
    }
  }

  /** A guest opens the dialog for the first initial gift, types their
      name and confirms: the gift is theirs, and the thank-you message is
      shown. */
  method GuestClaimsSeedGift() returns (status: Status, buyer: string, thanks: string)
    ensures status == Purchased && buyer == "Dana" && thanks == Messages.ThankYou
  {
    var registry := new LocalRegistry();
    SeedFirstGift();
    registry.HandlePurchaseClick(1);
    registry.EnterName("Dana");
    registry.ConfirmPurchase("2024-02-02T09:00:00.000Z");
    status := registry.gifts[0].status;
    buyer := registry.gifts[0].purchaserName;
    thanks := registry.successMessage;
  }
}
