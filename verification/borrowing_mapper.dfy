/** Conversion between the stored record and the transfer object; the
    shipping address is encrypted on the way in and decrypted on the way out. */
module BorrowingMapper {
  import opened Wrappers
  import opened BorrowingEntity
  import opened BorrowingDto

  /** The encryption service: a pair of transformations of a nullable string.
      Its implementation is outside the model; any pair may be supplied. */
  datatype Cipher = Cipher(
    encrypt: Option<string> -> Option<string>,
    decrypt: Option<string> -> Option<string>)

  /** The pass-through cipher the test configuration installs. */
  const IDENTITY_CIPHER: Cipher := Cipher(s => s, s => s)

  /** Decryption undoes encryption. */
  ghost predicate Inverse(c: Cipher) {
    forall s :: c.decrypt(c.encrypt(s)) == s
  }

  /** The pass-through cipher is its own inverse. */
  lemma IdentityIsInverse()
    ensures Inverse(IDENTITY_CIPHER)
  {
  }

  /** `toDTO` on a present entity: every field the transfer object has is copied
      unchanged, except the address, which is decrypted. */
  function ToDto(c: Cipher, e: Entity): (d: Dto)
    ensures d.id == e.id && d.userId == e.userId && d.bookUnitId == e.bookUnitId
    ensures d.startDate == e.startDate && d.endDate == e.endDate && d.active == e.active
    ensures d.shippingAddress == c.decrypt(e.shippingAddress)
  {
    Dto(e.id, e.userId, e.bookUnitId, c.decrypt(e.shippingAddress), e.startDate, e.endDate, e.active)
  }

  /** `toDTO`: null maps to null. */
  function ToDtoOrNull(c: Cipher, e: Option<Entity>): (d: Option<Dto>)
    ensures d.None? <==> e.None?
    ensures e.Some? ==> d.value == ToDto(c, e.value)
  {
    match e
    case None => None
    case Some(x) => Some(ToDto(c, x))
  }

  /** `stream().map(borrowingMapper::toDTO).collect(toList())`: the i-th
      transfer object is the conversion of the i-th entity, so order and
      length are kept. */
  function ToDtoList(c: Cipher, xs: seq<Entity>): (ds: seq<Dto>)
    ensures |ds| == |xs|
    ensures forall i :: 0 <= i < |xs| ==> ds[i] == ToDto(c, xs[i])
    ensures forall x :: x in xs ==> ToDto(c, x) in ds
  {
    var ds := seq(|xs|, i requires 0 <= i < |xs| => ToDto(c, xs[i]));
    assert forall x :: x in xs ==> ToDto(c, x) in ds by {
      forall x | x in xs ensures ToDto(c, x) in ds {
        var i :| 0 <= i < |xs| && xs[i] == x;
        assert ds[i] == ToDto(c, x);
      }
    }
    ds
  }

  /** `toEntity` on a present transfer object: fields copied unchanged, the
      address encrypted, and the creation date stamped with `today` only for a
      new record (no id); a record with an id gets no creation date. */
  function ToEntity(c: Cipher, d: Dto, today: Date): (e: Entity)
    ensures e.id == d.id && e.userId == d.userId && e.bookUnitId == d.bookUnitId
    ensures e.startDate == d.startDate && e.endDate == d.endDate && e.active == d.active
    ensures e.shippingAddress == c.encrypt(d.shippingAddress)
    ensures e.createdAt == (if d.id.None? then Some(today) else None)
  {
    Entity(d.id, d.userId, d.bookUnitId, c.encrypt(d.shippingAddress), d.startDate, d.endDate,
           if d.id.None? then Some(today) else None, d.active)
  }

  /** `toEntity`: null maps to null. */
  function ToEntityOrNull(c: Cipher, d: Option<Dto>, today: Date): (e: Option<Entity>)
    ensures e.None? <==> d.None?
    ensures d.Some? ==> e.value == ToEntity(c, d.value, today)
  {
    match d
    case None => None
    case Some(x) => Some(ToEntity(c, x, today))
  }

  /** With a cipher whose decryption undoes encryption, converting a transfer
      object to an entity and back gives the transfer object unchanged. */
  lemma RoundTrip(c: Cipher, d: Dto, today: Date)
    requires Inverse(c)
    ensures ToDto(c, ToEntity(c, d, today)) == d
  {
  }

  /** The same holds through the null-tolerant entry points. */
  lemma RoundTripOrNull(c: Cipher, d: Option<Dto>, today: Date)
    requires Inverse(c)
    ensures ToDtoOrNull(c, ToEntityOrNull(c, d, today)) == d
  {
    if d.Some? { RoundTrip(c, d.value, today); }
  }

  /** An entity converted from a transfer object that carries an id has no
      creation date, so it can never pass bean validation. */
  lemma ExistingIdFailsValidation(c: Cipher, d: Dto, today: Date)
    requires d.id.Some?
    ensures !Holds(CreatedAtNotNull, ToEntity(c, d, today), today)
    ensures !IsValid(ToEntity(c, d, today), today)
  {
  }
}
