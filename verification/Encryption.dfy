/** Application-level field encryption: the marker decides, on every read, whether a
    stored value is ciphertext. Fernet itself is a pair of functions with three laws. */
module Encryption {
  import opened Wrappers
  import opened JsonText


  const MARKER_PREFIX: string := "gpenc1:"
  const UNREADABLE_PLACEHOLDER: string := "[unreadable]"

  /** `seal(key, nonce, plaintext)` is a token; `open(key, token)` is its plaintext or a failure. */
  datatype Cipher = Cipher(seal: (string, int, string) -> string, open: (string, string) -> Option<string>)

  predicate Ascii(s: string) {
    forall i :: 0 <= i < |s| ==> s[i] as int < 128
  }

  /** Decryption undoes encryption under the same key and fails under any other. */
  ghost predicate Lawful(c: Cipher) {
    && (forall k, n, p :: c.open(k, c.seal(k, n, p)) == Some(p))
    && (forall k, k', n, p :: k != k' ==> c.open(k', c.seal(k, n, p)) == None)
    && (forall k, n, p :: Ascii(c.seal(k, n, p)))
  }

  /** The laws can be met: some cipher obeys them. */
  lemma LawsConsistent()
    ensures exists c :: Lawful(c)
  {
    // A cipher that hides nothing: its token is the key and the plaintext, as JSON text.
    var c := Cipher((k: string, n: int, p: string) => Pack(k, p), (k: string, t: string) => Unpack(k, t));
    forall k, n: int, p ensures c.open(k, c.seal(k, n, p)) == Some(p) && Ascii(c.seal(k, n, p)) {
      PackUnpack(k, k, p);
      PackAscii(k, p);
    }
    forall k, k', n: int, p | k != k' ensures c.open(k', c.seal(k, n, p)) == None {
      PackUnpack(k, k', p);
    }
    assert Lawful(c);
  }

  function Pack(k: string, p: string): string {
    Render(Arr([Str(k), Str(p)]))
  }

  function Unpack(k: string, t: string): Option<string> {
    match Loads(t)
    case Some(Arr(items)) =>
      if |items| == 2 && items[0] == Str(k) && items[1].Str? then Some(items[1].s) else None
    case _ => None
  }

  lemma {:induction false} EscapeAscii(s: string)
    ensures Ascii(Escape(s))
  {
    if s != "" {
      EscapeAscii(s[1..]);
      assert Ascii(EscapeChar(s[0]));
    }
  }

  lemma JoinAscii(a: string, b: string)
    requires Ascii(a) && Ascii(b)
    ensures Ascii(a + b)
  {}

  lemma QuotedAscii(s: string)
    ensures Ascii(Render(Str(s)))
  {
    EscapeAscii(s);
    JoinAscii("\"", Escape(s));
    JoinAscii("\"" + Escape(s), "\"");
  }

  lemma PackAscii(k: string, p: string)
    ensures Ascii(Pack(k, p))
  {
    var items := [Str(k), Str(p)];
    QuotedAscii(k);
    QuotedAscii(p);
    assert items[1..] == [Str(p)] && RenderItems([Str(p)]) == Render(Str(p));
    JoinAscii(", ", Render(Str(p)));
    JoinAscii(Render(Str(k)), ", " + Render(Str(p)));
    JoinAscii("[", RenderItems(items));
    JoinAscii("[" + RenderItems(items), "]");
  }

  lemma PackUnpack(k: string, k': string, p: string)
    ensures Unpack(k', Pack(k, p)) == (if k == k' then Some(p) else None)
  {
    LoadsDumps(Arr([Str(k), Str(p)]));
  }

  datatype Encryptor = NoOp | Fernet(key: string)

  function Encrypt(c: Cipher, e: Encryptor, nonce: int, plaintext: string): string {
    match e
    case NoOp => plaintext
    case Fernet(key) => MARKER_PREFIX + c.seal(key, nonce, plaintext)
  }

  /** `decrypt_token`; None is FieldDecryptionError. */
  function DecryptToken(c: Cipher, e: Encryptor, token: string): Option<string> {
    match e
    case NoOp => None
    case Fernet(key) => if Ascii(token) then c.open(key, token) else None
  }

  predicate IsEncrypted(value: string) {
    MARKER_PREFIX <= value
  }

  /** `decrypt_field`; None is FieldDecryptionError. */
  function DecryptField(c: Cipher, e: Encryptor, value: string): Option<string> {
    if IsEncrypted(value) then DecryptToken(c, e, value[|MARKER_PREFIX|..]) else Some(value)
  }

  /** `_decrypt_resolution_notes` on a stored value: a failure shows a placeholder. */
  function ReadNotes(c: Cipher, e: Encryptor, stored: string): string {
    match DecryptField(c, e, stored)
    case Some(notes) => notes
    case None => UNREADABLE_PLACEHOLDER
  }

  /** A sealed value opens under its own key, and under no other reader. */
  lemma SealedField(c: Cipher, key: string, nonce: int, plaintext: string, reader: Encryptor)
    requires Lawful(c)
    ensures var stored := Encrypt(c, Fernet(key), nonce, plaintext);
            && IsEncrypted(stored)
            && DecryptField(c, reader, stored) == (if reader == Fernet(key) then Some(plaintext) else None)
  {
    var token := c.seal(key, nonce, plaintext);
    assert (MARKER_PREFIX + token)[|MARKER_PREFIX|..] == token;
  }

  /** Free text survives the trip always under Fernet, and with encryption off exactly when
      it does not start with the marker. */
  lemma NotesRoundTrip(c: Cipher, e: Encryptor, nonce: int, notes: string)
    requires Lawful(c)
    ensures ReadNotes(c, e, Encrypt(c, e, nonce, notes)) == notes <==> e.Fernet? || !IsEncrypted(notes)
  {
    match e
    case Fernet(key) => SealedField(c, key, nonce, notes, e);
    case NoOp =>
      assert UNREADABLE_PLACEHOLDER[0] == '[' && MARKER_PREFIX[0] == 'g';
  }

  /** Under another key, or none, the notes are not shown: a placeholder is. */
  lemma NotesUnreadable(c: Cipher, key: string, nonce: int, notes: string, reader: Encryptor)
    requires Lawful(c) && reader != Fernet(key)
    ensures var stored := Encrypt(c, Fernet(key), nonce, notes);
            stored == "gpenc1:" + c.seal(key, nonce, notes) && ReadNotes(c, reader, stored) == "[unreadable]"
  {
    SealedField(c, key, nonce, notes, reader);
  }

  /** A marked value that is not a token in ASCII is never opened, whatever the cipher; nor is any
      marked value without a key; an unmarked value is always returned as it is. */
  lemma ReadBy(c: Cipher, e: Encryptor, value: string)
    ensures "gpenc1:" <= value && (exists i :: 7 <= i < |value| && value[i] as int >= 128) ==>
              DecryptField(c, e, value) == None
    ensures "gpenc1:" <= value && e == NoOp ==> DecryptField(c, e, value) == None
    ensures !("gpenc1:" <= value) ==> DecryptField(c, e, value) == Some(value)
  {
    if i :| "gpenc1:" <= value && 7 <= i < |value| && value[i] as int >= 128 {
      assert value[7..][i - 7] == value[i];
    }
  }

  /** Canonical JSON of an object can never be taken for ciphertext. */
  lemma ObjectTextUnmarked(v: Json)
    requires v.Obj?
    ensures !IsEncrypted(CanonicalJson(v))
  {
    assert CanonicalJson(v)[0] == '{' && MARKER_PREFIX[0] == 'g';
  }
}
