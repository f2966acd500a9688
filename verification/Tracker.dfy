/** What the protocols share: protocols/tracker.go. */
module Tracker {
  import opened Bytes
  import opened Text

  /** The arguments given to time.Date, UTC. */
  datatype DateTime = DateTime(year: int, month: int, day: int, hour: int, minute: int, second: int)

  predicate ValidCoordinates(lat: real, lon: real) {
    -90.0 <= lat <= 90.0 && -180.0 <= lon <= 180.0
  }

  /** ValidateIMEI: 10 to 20 digits, not all zero, after trimming. */
  predicate ValidIMEI(imei: bytes) {
    var s := Trim(imei);
    && 10 <= |s| <= 20
    && AllDigits(s)
    && exists i :: 0 <= i < |s| && s[i] != 0x30
  }

  /** The point 0,0 passes, although the comment on the check says it does not. */
  lemma NullIslandPasses()
    ensures ValidCoordinates(0.0, 0.0)
  {
  }

  /** Blanks around it aside, an identifier is 10 to 20 digits that are not all zero. */
  lemma IdentifierIff(before: bytes, id: bytes, after: bytes)
    requires Blanks(before) && Blanks(after)
    requires id != [] ==> !Blanks([id[0]]) && !Blanks([id[|id| - 1]])
    ensures ValidIMEI(before + id + after) <==>
      && 10 <= |id| <= 20 && (forall i | 0 <= i < |id| :: 48 <= id[i] <= 57)
      && exists i :: 0 <= i < |id| && id[i] != 48
  {
    hide Trim, Blanks;
    TrimExactly(before, id, after);
  }
}
