/** The contracts asked of foreign functions can be met: toy functions that satisfy them. */
module Consistency {
  import opened Outcomes
  import opened ByteStrings
  import AcraBlock
  import AcraStruct
  import AuditChain
  import Envelope

  function Zeros(n: nat): (s: bytes)
    ensures |s| == n && forall i :: 0 <= i < n ==> s[i] == 0
  {
    seq(n, _ => 0)
  }

  /** A form of the key that no other key's form begins with. */
  function Header(k: bytes): (h: bytes)
    ensures |h| == 2 * |k| + 1
  {
    Zeros(|k|) + [1] + k
  }

  lemma HeaderUnique(k: bytes, k': bytes, m: bytes)
    ensures HasPrefix(Header(k) + m, Header(k')) <==> k == k'
  {
    var c := Header(k) + m;
    assert c[..|Header(k)|] == Header(k);
    if HasPrefix(c, Header(k')) {
      var h := c[..|Header(k')|];
      assert h == Header(k') && h[|k'|] == 1 && c[|k|] == 1;
      assert forall i :: 0 <= i < |k| ==> c[i] == 0;
      assert forall i :: 0 <= i < |k'| ==> h[i] == 0 && c[i] == h[i];
      assert |k| == |k'|;
      assert Header(k)[|k| + 1..] == k && Header(k')[|k| + 1..] == k';
      assert h == Header(k);
    }
  }

  function Seal(k: bytes, m: bytes, ctx: bytes, r: bytes): bytes { Header(k) + m }

  function Open(k: bytes, c: bytes, ctx: bytes): Option<bytes> {
    if HasPrefix(c, Header(k)) then Some(c[|Header(k)|..]) else None
  }

  lemma OpenSeal(k: bytes, k': bytes, m: bytes, ctx: bytes, r: bytes)
    ensures Open(k', Seal(k, m, ctx, r), ctx) == if k == k' then Some(m) else None
  {
    HeaderUnique(k, k', m);
    assert (Header(k) + m)[|Header(k)|..] == m;
  }

  function KeyId(k: bytes, ctx: bytes): bytes { [0, 0] }

  /** s cut or filled to n bytes. */
  function Fitted(s: bytes, n: nat): (r: bytes)
    ensures |r| == n && (|s| == n ==> r == s)
  {
    if |s| >= n then s[..n] else s + Zeros(n - |s|)
  }

  function PublicOf(k: bytes): bytes { Fitted(k, 45) }

  function Wrap(e: bytes, p: bytes, m: bytes): bytes { Fitted(p, 45) + Fitted(m, 39) }

  function Unwrap(k: bytes, p: bytes, c: bytes): Option<bytes> {
    if |c| == 84 && c[..45] == PublicOf(k) then Some(c[45..77]) else None
  }

  lemma UnwrapWrap(e: bytes, k: bytes, k': bytes, m: bytes)
    ensures |m| == 32 ==> Unwrap(k, PublicOf(e), Wrap(e, PublicOf(k), m)) == Some(m)
    ensures PublicOf(k) != PublicOf(k') ==> Unwrap(k', PublicOf(e), Wrap(e, PublicOf(k), m)) == None
  {
    var c := Wrap(e, PublicOf(k), m);
    assert c[..45] == PublicOf(k) && c[45..] == Fitted(m, 39);
    if |m| == 32 { assert c[45..77] == Fitted(m, 39)[..32] == m; }
  }

  lemma BlockBackendSound()
    ensures AcraBlock.Backend(Seal, Open, KeyId).Sound()
  {
    hide Header;
    forall k, k', m, ctx, r ensures Open(k', Seal(k, m, ctx, r), ctx) == if k == k' then Some(m) else None {
      OpenSeal(k, k', m, ctx, r);
    }
  }

  lemma StructBackendSound()
    ensures AcraStruct.Backend(PublicOf, Wrap, Unwrap, Seal, Open).Sound()
  {
    hide Header, Fitted;
    forall k, m, ctx, r ensures Open(k, Seal(k, m, ctx, r), ctx) == Some(m) {
      OpenSeal(k, k, m, ctx, r);
    }
    forall e, k, k', m
      ensures |m| == 32 ==> Unwrap(k, PublicOf(e), Wrap(e, PublicOf(k), m)) == Some(m)
      ensures PublicOf(k) != PublicOf(k') ==> Unwrap(k', PublicOf(e), Wrap(e, PublicOf(k), m)) == None
    {
      UnwrapWrap(e, k, k', m);
    }
  }

  /**
   Encryption that recovers the plaintext under the right key only, and never shrinks it, is possible in both formats.
   */
  lemma SoundCryptoExists()
    ensures exists c: Envelope.Crypto :: c.Sound()
  {
    BlockBackendSound();
    StructBackendSound();
    assert Envelope.Crypto(AcraBlock.Backend(Seal, Open, KeyId),
                           AcraStruct.Backend(PublicOf, Wrap, Unwrap, Seal, Open)).Sound();
  }

  lemma FixedWidthHashingExists()
    ensures exists h: AuditChain.Hashing :: h.FixedWidth()
  {
    var h := AuditChain.Hashing(m => Zeros(32), (k, m) => Zeros(32));
    assert h.FixedWidth();
  }
}
