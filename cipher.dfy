/** The card-number cipher and the display mask.

    The cipher itself (authenticated encryption under a process-wide key
    with a fresh random IV per call) is a collaborator whose code is not
    part of this model. It is modelled as an ideal cipher: a `Vault` that
    remembers which ciphertexts it has issued and what each one opens to.
    A fresh random IV is modelled by the caller supplying a ciphertext the
    vault has never issued. Decryption of anything else (a tampered or
    foreign ciphertext) fails. */
module Cipher {
  import opened CardModel

  datatype Vault = Vault(issued: map<string, string>)

  function Decrypt(v: Vault, ciphertext: string): (r: Option<string>)
    ensures r.Some? <==> ciphertext in v.issued
    ensures r.Some? ==> r.value == v.issued[ciphertext]
  {
    if ciphertext in v.issued then Some(v.issued[ciphertext]) else None
  }

  /** Encrypt `pan` to the fresh `ciphertext`; the result is the vault that
      has issued it. */
  function Encrypt(v: Vault, pan: string, ciphertext: string): (v': Vault)
    requires ciphertext !in v.issued
    ensures v'.issued.Keys == v.issued.Keys + {ciphertext}
    ensures forall c | c in v.issued :: Decrypt(v', c) == Decrypt(v, c)
  {
    Vault(v.issued[ciphertext := pan])
  }

  /** Round trip: what was just encrypted decrypts to the plaintext. */
  lemma EncryptDecrypt(v: Vault, pan: string, ciphertext: string)
    requires ciphertext !in v.issued
    ensures Decrypt(Encrypt(v, pan, ciphertext), ciphertext) == Some(pan)
  {
  }

  /** Encrypting the same number twice, each time under a fresh ciphertext,
      leaves both ciphertexts opening to that number: the second encryption
      does not disturb the first. */
  lemma EncryptTwiceKeepsBoth(v: Vault, pan: string, c1: string, c2: string)
    requires c1 !in v.issued
    requires c2 !in Encrypt(v, pan, c1).issued
    ensures Decrypt(Encrypt(Encrypt(v, pan, c1), pan, c2), c1) == Some(pan)
    ensures Decrypt(Encrypt(Encrypt(v, pan, c1), pan, c2), c2) == Some(pan)
  {
  }

  const FullMaskPrefix: string := "**** **** **** "
  const ShortMask: string := "****"

  /** The display form of a card number: only its last four characters,
      behind a fixed run of stars; a missing or short number shows no
      characters at all. */
  function Mask(pan: Option<string>): (r: string)
    ensures pan.None? || |pan.value| < 4 ==> r == ShortMask
    ensures pan.Some? && |pan.value| >= 4 ==>
      |r| == 19 && r[..15] == FullMaskPrefix && r[15..] == pan.value[|pan.value| - 4..]
  {
    if pan.None? || |pan.value| < 4 then ShortMask
    else FullMaskPrefix + pan.value[|pan.value| - 4..]
  }

  /** The mask depends on nothing but the last four characters: two numbers
      that agree there (or that are both too short) cannot be told apart
      by their masks. */
  lemma MaskRevealsOnlyLastFour(p: string, q: string)
    requires (|p| < 4 && |q| < 4) || (|p| >= 4 && |q| >= 4 && p[|p| - 4..] == q[|q| - 4..])
    ensures Mask(Some(p)) == Mask(Some(q))
  {
  }

  /** Every character of a mask is a star, a space or one of the number's
      last four characters. */
  lemma MaskCharacters(p: string, i: int)
    requires 0 <= i < |Mask(Some(p))|
    ensures Mask(Some(p))[i] in "* " || (|p| >= 4 && i >= 15 && Mask(Some(p))[i] == p[|p| - 19 + i])
  {
  }

  lemma MaskVectors()
    ensures Mask(Some("4111111111111234")) == "**** **** **** 1234"
    ensures Mask(Some("4111111111111111")) == "**** **** **** 1111"
    ensures Mask(Some("123")) == "****"
    ensures Mask(None) == "****"
  {
  }
}
