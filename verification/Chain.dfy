// Completing a certificate's chain with the CA certificates (https.go:67-85).
module Chain {
  import opened Bytes

  class Certificate {
    var chain: seq<bytes>

    constructor (chain: seq<bytes>)
      ensures this.chain == chain
    {
      this.chain := chain;
    }
  }

  function Appended(have: seq<bytes>, cas: seq<bytes>): seq<bytes> {
    if cas == [] then have
    else
      var soFar, ca := Appended(have, cas[..|cas| - 1]), cas[|cas| - 1];
      if ca in soFar then soFar else soFar + [ca]
  }

  method AppendChain(cert: Certificate, cas: seq<bytes>)
    modifies cert
    ensures cert.chain == Appended(old(cert.chain), cas)
  {
    var k := 0;
    while k < |cas|
      invariant 0 <= k <= |cas|
      invariant cert.chain == Appended(old(cert.chain), cas[..k])
    {
      var ca := cas[k];
      var dup := false;
      var i := 0;
      while i < |cert.chain|
        invariant 0 <= i <= |cert.chain|
        invariant !dup && ca !in cert.chain[..i]
        invariant cert.chain == Appended(old(cert.chain), cas[..k])
      {
        if cert.chain[i] == ca {
          dup := true;
          break;
        }
        i := i + 1;
      }
      assert dup <==> ca in cert.chain;
      assert cas[..k + 1][..k] == cas[..k];
      if !dup {
        cert.chain := cert.chain + [ca];
      }
      k := k + 1;
    }
    assert cas[..k] == cas;
  }

  ghost predicate NoDuplicates(s: seq<bytes>) {
    forall i, j :: 0 <= i < j < |s| ==> s[i] != s[j]
  }

  /** The original chain stays in front, all the CA certificates are there and
      nothing else, and a chain without duplicates stays without. */
  lemma {:induction false} AppendedSpec(have: seq<bytes>, cas: seq<bytes>)
    ensures have <= Appended(have, cas)
    ensures forall c :: c in Appended(have, cas) <==> c in have || c in cas
    ensures NoDuplicates(have) ==> NoDuplicates(Appended(have, cas))
  {
    if cas != [] {
      var front := cas[..|cas| - 1];
      AppendedSpec(have, front);
      assert cas == front + [cas[|cas| - 1]];
    }
  }

  /** New certificates are appended in their order. */
  lemma {:induction false} AppendedInOrder(have: seq<bytes>, cas: seq<bytes>)
    requires NoDuplicates(cas) && forall c :: c in cas ==> c !in have
    ensures Appended(have, cas) == have + cas
  {
    if cas != [] {
      var front, ca := cas[..|cas| - 1], cas[|cas| - 1];
      AppendedInOrder(have, front);
      assert ca !in front;
      assert have + front + [ca] == have + cas;
    }
  }

  /** Certificates that are all there already are not appended. */
  lemma {:induction false} NothingToAppend(have: seq<bytes>, cas: seq<bytes>)
    requires forall c :: c in cas ==> c in have
    ensures Appended(have, cas) == have
  {
    if cas != [] {
      NothingToAppend(have, cas[..|cas| - 1]);
    }
  }

  /** A second call with the same certificates, or with some of them, changes nothing. */
  lemma AppendTwice(have: seq<bytes>, cas: seq<bytes>, again: seq<bytes>)
    requires forall c :: c in again ==> c in have || c in cas
    ensures Appended(Appended(have, cas), again) == Appended(have, cas)
  {
    AppendedSpec(have, cas);
    NothingToAppend(Appended(have, cas), again);
  }
}
