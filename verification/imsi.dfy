/** The "IMSI" prefix convention for subscriber identifiers, and `makeSID`,
    which turns a stored IMSI into the subscriber id the session manager expects. */
module Imsi {

  /** The canonical subscriber-id prefix. */
  const Prefix: string := "IMSI"

  /** `strings.HasPrefix(s, "IMSI")`. */
  predicate HasPrefix(s: string) {
    Prefix <= s
  }

  /** `strings.TrimPrefix(s, "IMSI")`: drops one leading prefix, if there is one. */
  function TrimPrefix(s: string): (r: string)
    ensures HasPrefix(s) ==> Prefix + r == s
    ensures !HasPrefix(s) ==> r == s
  {
    if HasPrefix(s) then s[|Prefix|..] else s
  }

  /** The subscriber id kind; the servicer only ever builds IMSI ids. */
  datatype IdType = IMSI

  datatype SubscriberId = SubscriberId(id: string, idType: IdType)

  /** `makeSID`: the subscriber id of an IMSI is the prefix followed by the
      IMSI with one leading prefix trimmed. */
  function MakeSid(imsi: string): (r: SubscriberId)
    ensures r.id == Prefix + TrimPrefix(imsi)
    ensures r.idType == IMSI
  {
    if HasPrefix(imsi) then SubscriberId(imsi, IMSI) else SubscriberId(Prefix + imsi, IMSI)
  }

  lemma PrefixedHasPrefix(x: string)
    ensures HasPrefix(Prefix + x)
    ensures TrimPrefix(Prefix + x) == x
  {
  }

  /** A subscriber id always starts with the prefix, and an IMSI that already
      carries it is used unchanged. */
  lemma MakeSidPrefixed(x: string)
    ensures HasPrefix(MakeSid(x).id)
    ensures HasPrefix(x) ==> MakeSid(x).id == x
  {
    PrefixedHasPrefix(TrimPrefix(x));
  }

  /** Normalising twice changes nothing. */
  lemma MakeSidIdempotent(x: string)
    ensures MakeSid(MakeSid(x).id) == MakeSid(x)
  {
  }

  /** An IMSI without the prefix and the same IMSI with it name the same subscriber. */
  lemma MakeSidAgrees(x: string)
    requires !HasPrefix(x)
    ensures MakeSid(Prefix + x) == MakeSid(x)
  {
  }

  /** Two IMSIs yield the same subscriber id exactly when they agree once a
      leading prefix is trimmed from each. */
  lemma SameSubscriber(x: string, y: string)
    ensures MakeSid(x) == MakeSid(y) <==> TrimPrefix(x) == TrimPrefix(y)
  {
    PrefixedHasPrefix(TrimPrefix(x));
    PrefixedHasPrefix(TrimPrefix(y));
  }

  /** Trimming the prefix first and then normalising gives back the subscriber
      id of the original, unless the trimmed IMSI carries the prefix again. */
  lemma TrimThenMakeSid(x: string)
    requires !HasPrefix(TrimPrefix(x))
    ensures MakeSid(TrimPrefix(x)) == MakeSid(x)
  {
  }

  /** The exception above is real: "IMSIIMSI1" trims to "IMSI1", which is
      already normalised and so names a different subscriber id. */
  lemma DoublePrefixNotRecovered()
    ensures MakeSid(TrimPrefix("IMSIIMSI1")) != MakeSid("IMSIIMSI1")
  {
  }
}
