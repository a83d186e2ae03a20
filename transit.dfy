/** The Vault transit secrets engine, as far as the key injector uses it. Its
    cryptography is not modelled: encryption and decryption are opaque functions
    fixed when the engine is built, and `None` stands for a call that throws. */
module Transit {
  import opened Wrappers

  /** What `readKey` reports about an existing key. */
  datatype KeyDetail = KeyDetail(versions: nat)

  /** One request sent to the engine. */
  datatype TransitCall =
    | ReadKeyCall(name: string)
    | CreateKeyCall(name: string)
    | EncryptCall(name: string, plaintext: string)
    | DecryptCall(name: string, ciphertext: string)

  class TransitEngine {
    /** Named keys and how many versions each holds. */
    var keys: map<string, nat>
    /** Every request made so far, oldest first (the engine's audit trail). */
    var calls: seq<TransitCall>
    const encryption: (string, string) -> Option<string>
    const decryption: (string, string) -> Option<string>

    constructor (keys: map<string, nat>,
                 encryption: (string, string) -> Option<string>,
                 decryption: (string, string) -> Option<string>)
      ensures this.keys == keys && calls == []
      ensures this.encryption == encryption && this.decryption == decryption
    {
      this.keys := keys;
      this.calls := [];
      this.encryption := encryption;
      this.decryption := decryption;
    }

    method ReadKey(name: string) returns (detail: Option<KeyDetail>)
      modifies this`calls
      ensures detail == if name in keys then Some(KeyDetail(keys[name])) else None
      ensures calls == old(calls) + [ReadKeyCall(name)]
    {
      detail := if name in keys then Some(KeyDetail(keys[name])) else None;
      calls := calls + [ReadKeyCall(name)];
    }

    /** Creates a key with one version; an existing key is left as it is. */
    method CreateKey(name: string)
      modifies this
      ensures keys == if name in old(keys) then old(keys) else old(keys)[name := 1]
      ensures calls == old(calls) + [CreateKeyCall(name)]
    {
      if name !in keys {
        keys := keys[name := 1];
      }
      calls := calls + [CreateKeyCall(name)];
    }

    method Encrypt(name: string, plaintext: string) returns (ciphertext: Option<string>)
      modifies this`calls
      ensures ciphertext == encryption(name, plaintext)
      ensures calls == old(calls) + [EncryptCall(name, plaintext)]
    {
      ciphertext := encryption(name, plaintext);
      calls := calls + [EncryptCall(name, plaintext)];
    }

    method Decrypt(name: string, ciphertext: string) returns (plaintext: Option<string>)
      modifies this`calls
      ensures plaintext == decryption(name, ciphertext)
      ensures calls == old(calls) + [DecryptCall(name, ciphertext)]
    {
      plaintext := decryption(name, ciphertext);
      calls := calls + [DecryptCall(name, ciphertext)];
    }
  }
}
