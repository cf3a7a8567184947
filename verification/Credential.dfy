/** The minting credential core hands to a module, internal/workload/keys.go. */
module Credential {
  import opened Text
  import Base64

  const PREFIX: bytes := "bwmc"

  /** The keyed hash of a module id, for the deployment's credential key. */
  type Mac = bytes -> bytes

  function Issue(mac: Mac, moduleID: bytes): bytes
  {
    PREFIX + ['.'] + moduleID + ['.'] + Base64.Encode(mac(moduleID), Base64.RawUrl)
  }

  /** The module a credential was issued to. */
  function ModuleFor(mac: Mac, presented: bytes): Option<bytes>
  {
    Authentic(mac, Split(presented, '.'))
  }

  function Authentic(mac: Mac, parts: seq<bytes>): Option<bytes>
  {
    if |parts| != 3 || parts[0] != PREFIX || parts[1] == [] then None
    else if Base64.Decode(parts[2], Base64.RawUrl) != Some(mac(parts[1])) then None
    else Some(parts[1])
  }

  lemma OuterParts(a: bytes, b: bytes, c: bytes)
    requires '.' !in a && '.' !in c
    ensures Split(a + ['.'] + b + ['.'] + c, '.') == [a] + Split(b, '.') + [c]
  {
    var rest := b + ['.'] + c;
    SplitClean(c, '.');
    SplitAround(b, c, '.');
    SplitCons(a, '.', rest);
    assert a + ['.'] + b + ['.'] + c == a + ['.'] + rest;
    Assoc([a], Split(b, '.'), [c]);
  }

  lemma IssuedParts(mac: Mac, moduleID: bytes)
    ensures Split(Issue(mac, moduleID), '.')
         == [PREFIX] + Split(moduleID, '.') + [Base64.Encode(mac(moduleID), Base64.RawUrl)]
  {
    Base64.EncodeAlphabet(mac(moduleID), Base64.RawUrl);
    OuterParts(PREFIX, moduleID, Base64.Encode(mac(moduleID), Base64.RawUrl));
  }

  /** An issued credential authenticates its own module, and no other, exactly when the id is not
      empty and holds no dot; for any other id it authenticates nobody. */
  lemma RoundTrip(mac: Mac, moduleID: bytes)
    ensures ModuleFor(mac, Issue(mac, moduleID)) == if moduleID != [] && '.' !in moduleID then Some(moduleID) else None
  {
    var tag := Base64.Encode(mac(moduleID), Base64.RawUrl);
    IssuedParts(mac, moduleID);
    Base64.RoundTrip(mac(moduleID), Base64.RawUrl);
    if '.' in moduleID {
      SplitLength(moduleID, '.');
      CountZero(moduleID, '.');
    } else {
      SplitClean(moduleID, '.');
      assert [PREFIX] + [moduleID] + [tag] == [PREFIX, moduleID, tag];
    }
  }

  predicate Bears(mac: Mac, presented: bytes, moduleID: bytes, tag: bytes)
  {
    && moduleID != [] && '.' !in moduleID && '.' !in tag
    && presented == "bwmc" + ['.'] + moduleID + ['.'] + tag
    && Base64.Decode(tag, Base64.RawUrl) == Some(mac(moduleID))
  }

  /** A presented text authenticates a module exactly when it is the prefix, the module's id and a
      text that decodes to the hash of that id, with dots between them. */
  lemma AuthenticatesExactly(mac: Mac, presented: bytes, moduleID: bytes)
    ensures ModuleFor(mac, presented) == Some(moduleID) <==> exists tag: bytes :: Bears(mac, presented, moduleID, tag)
  {
    var parts := Split(presented, '.');
    JoinSplit(presented, '.');
    if ModuleFor(mac, presented) == Some(moduleID) {
      assert parts == [PREFIX, moduleID, parts[2]];
      JoinThree(PREFIX, moduleID, parts[2], '.');
      assert Bears(mac, presented, moduleID, parts[2]);
    }
    forall tag: bytes | Bears(mac, presented, moduleID, tag) ensures ModuleFor(mac, presented) == Some(moduleID) {
      JoinThree(PREFIX, moduleID, tag, '.');
      SplitJoin([PREFIX, moduleID, tag], '.');
    }
  }
}
