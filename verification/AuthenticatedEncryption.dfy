/** Authenticated encryption with associated data, kept abstract: two functions
    about which only the stated hypotheses are ever used. */
module AuthenticatedEncryption {
  import opened Wrappers

  const NONCE_LEN := 12
  const TAG_LEN := 16
  const KEY_LEN := 32

  /** Arguments are key, nonce, associated data and text. */
  datatype Aead<!A(!new)> = Aead(
    seal: (Bytes, Bytes, A, Bytes) -> Bytes,
    open: (Bytes, Bytes, A, Bytes) -> Option<Bytes>)
  {
    /** What is sealed opens again under the same key, nonce and associated data. */
    ghost predicate Correct() {
      && (forall k, n, a, p :: open(k, n, a, seal(k, n, a, p)) == Some(p))
      && (forall k, n, a, p :: |seal(k, n, a, p)| == |p| + TAG_LEN)
    }

    /** This envelope opens under no other key: what an ideal cipher gives. */
    ghost predicate Exclusive(key: Bytes, nonce: Bytes, a: A, text: Bytes) {
      forall k :: open(k, nonce, a, text).Some? ==> k == key
    }

    /** And under no other associated data either. */
    ghost predicate Sole(key: Bytes, nonce: Bytes, a: A, text: Bytes) {
      forall k, b :: open(k, nonce, b, text).Some? ==> k == key && b == a
    }
  }

  /** A tag that singles out one key and one associated data. */
  function SampleTag(home: bool): (t: Bytes)
    ensures |t| == TAG_LEN
  {
    seq(TAG_LEN, _ => if home then 1 else 0)
  }

  lemma TagsDiffer()
    ensures SampleTag(true) != SampleTag(false)
  {
    assert SampleTag(true)[0] == 1 && SampleTag(false)[0] == 0;
  }

  /** The hypotheses about the cipher can be met: for every envelope there is a
      correct cipher that makes it and opens it in one way only. */
  lemma IdealCipherExists<A(!new)>(key: Bytes, nonce: Bytes, a: A, text: Bytes) returns (c: Aead<A>)
    ensures c.Correct() && c.Sole(key, nonce, a, c.seal(key, nonce, a, text))
    ensures c.Exclusive(key, nonce, a, c.seal(key, nonce, a, text))
  {
    hide SampleTag;
    TagsDiffer();
    c := Aead(
      (k, n, b, p) => p + SampleTag(k == key && b == a),
      (k, n, b, t: Bytes) =>
        if |t| >= TAG_LEN && t[|t| - TAG_LEN..] == SampleTag(k == key && b == a) then Some(t[..|t| - TAG_LEN])
        else None);
    forall k, n, b, p
      ensures c.open(k, n, b, c.seal(k, n, b, p)) == Some(p) && |c.seal(k, n, b, p)| == |p| + TAG_LEN
    {
      var t := p + SampleTag(k == key && b == a);
      assert t[|t| - TAG_LEN..] == SampleTag(k == key && b == a) && t[..|t| - TAG_LEN] == p;
    }
    var sealed := text + SampleTag(true);
    assert sealed[|sealed| - TAG_LEN..] == SampleTag(true);
  }
}
