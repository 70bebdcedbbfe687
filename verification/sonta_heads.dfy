/**
 * The Sonta Head registry (`SontaHeadsService` of the api backend): people
 * enrolled with a profile photo, keyed by a unique phone number, whose face
 * embedding is stored encrypted. Face extraction, image processing and the
 * cipher arrive as inputs: a `Photo` carries the embedding the recogniser
 * finds in it (if any) and where it would be stored; `seal` is the cipher.
 */
module SontaHeads {
  import opened Wrappers
  import ImageStorage
  import Paging
  import Base64
  import Seqs
  import opened Strings

  datatype HeadStatus = Active | Inactive | Suspended

  datatype SontaHead = SontaHead(
    id: string,
    name: string,
    sontaName: Option<string>,
    phone: string,
    email: Option<string>,
    profileImageUrl: string,
    profileImagePath: Option<string>,
    embedding: Option<seq<Base64.Byte>>,
    status: HeadStatus,
    notes: Option<string>)

  /** `CreateSontaHeadDto` after validation. */
  datatype HeadForm = HeadForm(name: string, sontaName: Option<string>, phone: string, email: Option<string>,
                               notes: Option<string>, status: Option<HeadStatus>)

  /** `UpdateSontaHeadDto`: every field optional; it declares no `sontaName`. */
  datatype HeadPatch = HeadPatch(name: Option<string>, phone: Option<string>, email: Option<string>,
                                 notes: Option<string>, status: Option<HeadStatus>)

  /** An uploaded photo: the embedding found in it, and where it is saved once processed. */
  datatype Photo = Photo(embedding: Option<seq<real>>, storedPath: string, storedUrl: string)

  predicate PhoneTaken(heads: seq<SontaHead>, phone: string) {
    exists i :: 0 <= i < |heads| && heads[i].phone == phone
  }

  /** Ids are unique (primary key) and so are phone numbers (`UQ_sonta_heads_phone`). */
  predicate Valid(heads: seq<SontaHead>) {
    forall i, j :: 0 <= i < |heads| && 0 <= j < |heads| && i != j ==>
      heads[i].id != heads[j].id && heads[i].phone != heads[j].phone
  }

  function HeadKey(h: SontaHead): string {
    h.id
  }

  /** The position of the head with this id, if any. */
  function IndexOf(heads: seq<SontaHead>, id: string): Option<nat> {
    Seqs.Find(heads, HeadKey, id)
  }

  const PhoneTakenMsg := "Phone number already registered"

  /**
   * `create`: a taken phone is refused before the photo is even looked at;
   * then a photo is required, and it must show a face. The embedding is
   * stored sealed and the status defaults to ACTIVE.
   */
  function Create(heads: seq<SontaHead>, f: HeadForm, photo: Option<Photo>, id: string,
                  seal: seq<real> -> seq<Base64.Byte>): (r: Result<seq<SontaHead>, HttpError>)
    ensures PhoneTaken(heads, f.phone) ==> r == Err(Conflict(PhoneTakenMsg))
    ensures !PhoneTaken(heads, f.phone) && photo.None? ==> r == Err(BadRequest("Profile image is required"))
    ensures r.Ok? <==> !PhoneTaken(heads, f.phone) && photo.Some? && photo.value.embedding.Some?
    ensures r.Ok? ==>
      && |r.value| == |heads| + 1 && r.value[..|heads|] == heads
      && r.value[|heads|].id == id && r.value[|heads|].phone == f.phone
      && r.value[|heads|].name == f.name && r.value[|heads|].sontaName == f.sontaName
      && r.value[|heads|].email == f.email && r.value[|heads|].notes == f.notes
      && r.value[|heads|].profileImageUrl == photo.value.storedUrl
      && r.value[|heads|].profileImagePath == Some(photo.value.storedPath)
      && r.value[|heads|].embedding == Some(seal(photo.value.embedding.value))
      && r.value[|heads|].status == (if f.status.Some? then f.status.value else Active)
  {
    if PhoneTaken(heads, f.phone) then Err(Conflict(PhoneTakenMsg))
    else if photo.None? then Err(BadRequest("Profile image is required"))
    else if photo.value.embedding.None? then
      Err(BadRequest("No valid face detected in image. Please upload a clear photo with exactly one face."))
    else
      var p := photo.value;
      var head := SontaHead(id, f.name, f.sontaName, f.phone, f.email, p.storedUrl, Some(p.storedPath),
                            Some(seal(p.embedding.value)), f.status.GetOr(Active), f.notes);
      assert (heads + [head])[..|heads|] == heads;
      Ok(heads + [head])
  }

  lemma CreatePreservesValid(heads: seq<SontaHead>, f: HeadForm, photo: Option<Photo>, id: string,
                             seal: seq<real> -> seq<Base64.Byte>)
    requires Valid(heads) && IndexOf(heads, id).None?
    ensures var r := Create(heads, f, photo, id, seal); r.Ok? ==> Valid(r.value)
  {
    var r := Create(heads, f, photo, id, seal);
    if r.Ok? {
      var n := |heads|;
      forall i, j | 0 <= i < |r.value| && 0 <= j < |r.value| && i != j
        ensures r.value[i].id != r.value[j].id && r.value[i].phone != r.value[j].phone
      {
        if i < n && j < n {
          assert r.value[i] == heads[i] && r.value[j] == heads[j];
        } else if i < n {
          assert r.value[i] == heads[i];
        } else {
          assert r.value[j] == heads[j];
        }
      }
    }
  }

  datatype Updated = Updated(heads: seq<SontaHead>, removal: ImageStorage.Removal)

  function Assign(h: SontaHead, p: HeadPatch): SontaHead {
    h.(name := p.name.GetOr(h.name),
       phone := p.phone.GetOr(h.phone),
       email := if p.email.Some? then p.email else h.email,
       notes := if p.notes.Some? then p.notes else h.notes,
       status := p.status.GetOr(h.status))
  }

  /**
   * `update`: a new (non-empty) phone is checked for uniqueness only when it
   * differs from the current one. A new photo must show a face, and only once
   * its embedding is in hand is the old image routed for deletion. The
   * patch's fields then overwrite the record (`Object.assign`).
   */
  function Update(heads: seq<SontaHead>, id: string, p: HeadPatch, photo: Option<Photo>,
                  seal: seq<real> -> seq<Base64.Byte>): (r: Result<Updated, HttpError>)
    ensures IndexOf(heads, id).None? ==> r == Err(NotFound("Sonta Head not found"))
    ensures r.Ok? ==> IndexOf(heads, id).Some?
    ensures IndexOf(heads, id).Some? && p.phone.Some? && p.phone.value != ""
            && p.phone.value != heads[IndexOf(heads, id).value].phone && PhoneTaken(heads, p.phone.value) ==>
              r == Err(Conflict(PhoneTakenMsg))
    ensures photo.Some? && photo.value.embedding.None? ==> r.Err?
    ensures r.Ok? ==>
      var i := IndexOf(heads, id).value;
      && |r.value.heads| == |heads|
      && (forall j :: 0 <= j < |heads| && j != i ==> r.value.heads[j] == heads[j])
      && r.value.heads[i].id == id
      && r.value.heads[i].sontaName == heads[i].sontaName
      && (p.name.Some? ==> r.value.heads[i].name == p.name.value)
      && (p.name.None? ==> r.value.heads[i].name == heads[i].name)
      && (p.phone.Some? ==> r.value.heads[i].phone == p.phone.value)
      && (p.phone.None? ==> r.value.heads[i].phone == heads[i].phone)
      && r.value.heads[i].email == (if p.email.Some? then p.email else heads[i].email)
      && r.value.heads[i].notes == (if p.notes.Some? then p.notes else heads[i].notes)
      && (p.status.Some? ==> r.value.heads[i].status == p.status.value)
      && (p.status.None? ==> r.value.heads[i].status == heads[i].status)
      && (photo.None? ==> r.value.removal == ImageStorage.Keep
                          && r.value.heads[i].embedding == heads[i].embedding
                          && r.value.heads[i].profileImageUrl == heads[i].profileImageUrl
                          && r.value.heads[i].profileImagePath == heads[i].profileImagePath)
      && (photo.Some? ==> r.value.removal == ImageStorage.RemovalFor(heads[i].profileImagePath)
                          && r.value.heads[i].embedding == Some(seal(photo.value.embedding.value))
                          && r.value.heads[i].profileImageUrl == photo.value.storedUrl
                          && r.value.heads[i].profileImagePath == Some(photo.value.storedPath))
  {
    match IndexOf(heads, id)
    case None => Err(NotFound("Sonta Head not found"))
    case Some(i) =>
      var h := heads[i];
      if p.phone.Some? && p.phone.value != "" && p.phone.value != h.phone && PhoneTaken(heads, p.phone.value) then
        Err(Conflict(PhoneTakenMsg))
      else if photo.Some? && photo.value.embedding.None? then
        Err(BadRequest("No valid face detected in new image. Please upload a clear photo with exactly one face."))
      else
        var withPhoto :=
          if photo.Some? then
            h.(profileImageUrl := photo.value.storedUrl, profileImagePath := Some(photo.value.storedPath),
               embedding := Some(seal(photo.value.embedding.value)))
          else h;
        var removal := if photo.Some? then ImageStorage.RemovalFor(h.profileImagePath) else ImageStorage.Keep;
        Ok(Updated(heads[i := Assign(withPhoto, p)], removal))
  }

  /**
   * Phone numbers stay unique through an update, provided the new phone is
   * non-empty as the update DTO's phone pattern guarantees.
   */
  lemma UpdatePreservesValid(heads: seq<SontaHead>, id: string, p: HeadPatch, photo: Option<Photo>,
                             seal: seq<real> -> seq<Base64.Byte>)
    requires Valid(heads)
    requires p.phone.Some? ==> p.phone.value != ""
    ensures var r := Update(heads, id, p, photo, seal); r.Ok? ==> Valid(r.value.heads)
  {
    var r := Update(heads, id, p, photo, seal);
    if r.Ok? {
      var i := IndexOf(heads, id).value;
      var hs := r.value.heads;
      forall a, b | 0 <= a < |hs| && 0 <= b < |hs| && a != b
        ensures hs[a].id != hs[b].id && hs[a].phone != hs[b].phone
      {
        if a != i && b != i {
          assert hs[a] == heads[a] && hs[b] == heads[b];
        } else if a == i {
          assert hs[b] == heads[b];
          if p.phone.Some? && p.phone.value != heads[i].phone {
            assert !PhoneTaken(heads, p.phone.value);
          }
        } else {
          assert hs[a] == heads[a];
          if p.phone.Some? && p.phone.value != heads[i].phone {
            assert !PhoneTaken(heads, p.phone.value);
          }
        }
      }
    }
  }

  /** `findOne`: the head with that id, or NotFound. */
  function FindOne(heads: seq<SontaHead>, id: string): (r: Result<SontaHead, HttpError>)
    ensures r.Err? <==> forall i :: 0 <= i < |heads| ==> heads[i].id != id
    ensures r.Err? ==> r.error == NotFound("Sonta Head not found")
    ensures r.Ok? ==> r.value in heads && r.value.id == id
  {
    match IndexOf(heads, id)
    case None => Err(NotFound("Sonta Head not found"))
    case Some(i) => Ok(heads[i])
  }

  /** The registry after a removal together with what becomes of the removed head's image. */
  datatype Removed = Removed(heads: seq<SontaHead>, removal: ImageStorage.Removal)

  /** `remove`: NotFound for a missing id; otherwise the head goes and its stored image is routed for deletion. */
  function Remove(heads: seq<SontaHead>, id: string): (r: Result<Removed, HttpError>)
    ensures r.Err? <==> forall i :: 0 <= i < |heads| ==> heads[i].id != id
    ensures r.Err? ==> r.error == NotFound("Sonta Head not found")
    ensures r.Ok? ==> forall h :: h in r.value.heads <==> h in heads && h.id != id
    ensures r.Ok? ==> exists i :: 0 <= i < |heads| && heads[i].id == id
                                  && r.value.removal == ImageStorage.RemovalFor(heads[i].profileImagePath)
  {
    match IndexOf(heads, id)
    case None => Err(NotFound("Sonta Head not found"))
    case Some(i) =>
      Ok(Removed(Seqs.Keep(heads, (h: SontaHead) => h.id != id), ImageStorage.RemovalFor(heads[i].profileImagePath)))
  }

  function HeadPhone(h: SontaHead): string {
    h.phone
  }

  /** Removing a head keeps ids and phone numbers unique. */
  lemma RemovePreservesValid(heads: seq<SontaHead>, id: string)
    requires Valid(heads)
    ensures var r := Remove(heads, id); r.Ok? ==> Valid(r.value.heads)
  {
    if IndexOf(heads, id).Some? {
      var p := (h: SontaHead) => h.id != id;
      assert Seqs.DistinctBy(heads, HeadKey);
      assert Seqs.DistinctBy(heads, HeadPhone);
      Seqs.KeepDistinct(heads, p, HeadKey);
      Seqs.KeepDistinct(heads, p, HeadPhone);
    }
  }

  datatype Listing = Listing(data: seq<SontaHead>, page: Paging.Page, total: nat)

  function Filter(heads: seq<SontaHead>, status: HeadStatus): (r: seq<SontaHead>)
    ensures |r| <= |heads|
    ensures forall h :: h in r <==> h in heads && h.status == status
  {
    Seqs.Keep(heads, (h: SontaHead) => h.status == status)
  }

  /** `name ILIKE %search% OR phone ILIKE %search%`, applied only for a non-empty search. */
  predicate Matches(search: Option<string>, h: SontaHead) {
    search.Some? && search.value != "" ==> Contains(h.name, search.value) || Contains(h.phone, search.value)
  }

  /** The `andWhere` clauses of `findAll`: the search and, when given, the status. */
  predicate Listed(search: Option<string>, status: Option<HeadStatus>, h: SontaHead) {
    Matches(search, h) && (status.Some? ==> h.status == status.value)
  }

  function ListedBy(search: Option<string>, status: Option<HeadStatus>): SontaHead -> bool {
    h => Listed(search, status, h)
  }

  /** The heads `findAll` selects, before paging. */
  function Selection(heads: seq<SontaHead>, search: Option<string>, status: Option<HeadStatus>): (r: seq<SontaHead>)
    ensures |r| <= |heads|
    ensures forall h :: h in r <==> h in heads && Listed(search, status, h)
  {
    Seqs.Keep(heads, ListedBy(search, status))
  }

  /** Without a search, the selection for a status is the status filter. */
  lemma SelectionWithoutSearch(heads: seq<SontaHead>, status: HeadStatus)
    ensures Selection(heads, None, Some(status)) == Filter(heads, status)
    ensures Selection(heads, Some(""), None) == heads
  {
    Seqs.KeepSame(heads, ListedBy(None, Some(status)), (h: SontaHead) => h.status == status);
    Seqs.KeepAll(heads, ListedBy(Some(""), None));
  }

  /**
   * The selection in `createdAt DESC` order. Create appends and Update and
   * Remove keep every other head in place, so the table is in creation
   * order and newest first is the selection read backwards.
   */
  function NewestFirst(heads: seq<SontaHead>, search: Option<string>, status: Option<HeadStatus>): (r: seq<SontaHead>)
    ensures |r| == |Selection(heads, search, status)|
    ensures forall i :: 0 <= i < |r| ==> r[i] == Selection(heads, search, status)[|r| - 1 - i]
    ensures multiset(r) == multiset(Selection(heads, search, status))
  {
    Seqs.Reverse(Selection(heads, search, status))
  }

  /**
   * A head just created is listed first when the query selects it, ahead
   * of the listing as it was; otherwise the listing is unchanged.
   */
  lemma CreatedHeadListedFirst(heads: seq<SontaHead>, f: HeadForm, photo: Option<Photo>, id: string,
                               seal: seq<real> -> seq<Base64.Byte>, search: Option<string>, status: Option<HeadStatus>)
    requires Create(heads, f, photo, id, seal).Ok?
    ensures var after := Create(heads, f, photo, id, seal).value;
            var h := after[|heads|];
            NewestFirst(after, search, status)
              == (if Listed(search, status, h) then [h] else []) + NewestFirst(heads, search, status)
  {
    var after := Create(heads, f, photo, id, seal).value;
    var h := after[|heads|];
    assert after == heads + [h];
    Seqs.KeepAppend(heads, h, ListedBy(search, status));
    if Listed(search, status, h) {
      Seqs.ReverseAppend(Selection(heads, search, status), h);
    }
  }

  /**
   * `findAll`: filter by the search and the status, then page the listing.
   * The total counts the whole listing, and the page's rows are the
   * window for that page of the listing newest first.
   */
  function FindAll(heads: seq<SontaHead>, search: Option<string>, status: Option<HeadStatus>,
                   page: Option<int>, limit: Option<int>): (r: Listing)
    requires page.Some? ==> page.value >= 1
    requires limit.Some? ==> limit.value >= 1
    ensures r.total == |Selection(heads, search, status)|
    ensures r.page == Paging.Paginate(page, limit, r.total)
    ensures r.data == Paging.Window(NewestFirst(heads, search, status), r.page)
    ensures |r.data| <= r.page.limit
    ensures forall h :: h in r.data ==> h in heads && Listed(search, status, h)
  {
    var rows := NewestFirst(heads, search, status);
    var p := Paging.Paginate(page, limit, |rows|);
    var w := Paging.Window(rows, p);
    assert forall h :: h in w ==> h in rows;
    assert forall h :: h in rows ==> h in Selection(heads, search, status) by {
      assert multiset(rows) == multiset(Selection(heads, search, status));
    }
    Listing(w, p, |rows|)
  }

  /**
   * Paging through the listing shows every selected head exactly once: row
   * `i` of the listing is on page `i / limit + 1`, in place `i - skip`, and
   * on no other page.
   */
  lemma FindAllPagesCoverListing(heads: seq<SontaHead>, search: Option<string>, status: Option<HeadStatus>,
                                 limit: Option<int>, i: nat, q: int)
    requires limit.Some? ==> limit.value >= 1
    requires q >= 1
    requires i < |NewestFirst(heads, search, status)|
    ensures var r := FindAll(heads, search, status, Some(q), limit);
            r.page.skip <= i < r.page.skip + r.page.limit <==> q == i / r.page.limit + 1
    ensures var r := FindAll(heads, search, status, Some(q), limit);
            q == i / r.page.limit + 1 ==>
              i - r.page.skip < |r.data| && r.data[i - r.page.skip] == NewestFirst(heads, search, status)[i]
  {
    var rows := NewestFirst(heads, search, status);
    Paging.RowOnExactlyOnePage(limit, |rows|, i, q);
  }
}
