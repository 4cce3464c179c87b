/** The cryptographic primitives the at-rest cipher is built from, known only by
    the laws the rest of the model may use. */
module Primitives {
  import opened Wrappers
  import opened Encoding

  /** AES-GCM `seal` and `open` (key, nonce, payload) and SHA-256. */
  datatype Suite = Suite(
    seal: (Bytes, Bytes, string) -> Bytes,
    open: (Bytes, Bytes, Bytes) -> Option<string>,
    sha256: Bytes -> Bytes)

  /** What was sealed opens under the same key and nonce, and a digest has 32 bytes. */
  ghost predicate Lawful(p: Suite) {
    && (forall k, n, t :: p.open(k, n, p.seal(k, n, t)) == Some(t))
    && (forall x :: |p.sha256(x)| == 32)
  }

  /** Any suite obeying the laws. */
  type Crypto = p: Suite | Lawful(p) ghost witness Plain()

  /** The laws are satisfiable: sealing as spelling every character in three bytes. */
  function Plain(): (p: Suite)
    ensures Lawful(p)
  {
    var p := Suite((k, n, t) => Spell(t), (k, n, c) => Read(c), x => seq(32, i => 0));
    assert forall k, n, t :: p.open(k, n, p.seal(k, n, t)) == Some(t) by {
      forall t ensures Read(Spell(t)) == Some(t) { ReadSpell(t); }
    }
    p
  }

  function Spell(t: string): Bytes {
    if t == "" then []
    else
      var c := t[0] as int;
      [c / 65536, c / 256 % 256, c % 256] + Spell(t[1..])
  }

  function Read(bs: Bytes): Option<string> {
    if bs == [] then Some("")
    else if |bs| < 3 then None
    else
      var c: int := bs[0] as int * 65536 + bs[1] as int * 256 + bs[2] as int;
      var rest := Read(bs[3..]);
      if rest.None? || !(c < 0xD800 || 0xE000 <= c < 0x11_0000) then None
      else Some([c as char] + rest.value)
  }

  lemma {:induction false} ReadSpell(t: string)
    ensures Read(Spell(t)) == Some(t)
  {
    if t != "" {
      ReadSpell(t[1..]);
      assert Spell(t)[3..] == Spell(t[1..]);
      assert [t[0]] + t[1..] == t;
    }
  }
}
