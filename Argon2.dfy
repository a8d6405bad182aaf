/** The argon2.js glue of src/ts/argon2.ts: an `Argon2` object that loads
    the Argon2 WebAssembly module and hashes passwords through it.

    The wasm module is an `Engine`. Its Argon2 computation
    (`_argon2_hash_ext`, `_argon2_encodedlen`, `_argon2_error_message`) is
    foreign code, so the engine carries it as arbitrary functions fixed when
    it is created; what the model follows is the module's memory (which
    blocks are allocated) and the sequence of calls the glue makes into it. */
module Argon2Glue {
  import opened TextEncoding
  import B64

  datatype Option<T> = None | Some(value: T)

  /** `Argon2Type`: the numbers the engine receives. */
  datatype Argon2Type = Argon2d | Argon2i | Argon2id
  {
    function Code(): (n: int)
      ensures 0 <= n <= 2
    {
      match this
      case Argon2d => 0
      case Argon2i => 1
      case Argon2id => 2
    }
  }

  /** `Argon2Params`; `salt` is Base64 text. */
  datatype Params = Params(mem: int, parallel: int, iter: int, hashLen: int, salt: string, argon2Type: Argon2Type)

  /** The arguments of `_argon2_encodedlen`. */
  datatype EncodedLenArgs = EncodedLenArgs(tCost: int, mCost: int, parallelism: int, saltLen: int, hashLen: int, argon2Type: int)

  /** The seventeen arguments of `_argon2_hash_ext`, pointers included. */
  datatype HashExtCall = HashExtCall(
    tCost: int, mCost: int, parallelism: int,
    pwd: nat, pwdLen: int,
    salt: nat, saltLen: int,
    hash: nat, hashLen: int,
    encoded: nat, encodedLen: int,
    argon2Type: int,
    secret: int, secretLen: int,
    ad: int, adLen: int,
    version: int)

  /** How `_argon2_hash_ext` ends: it returns a status code or throws.
      `Threw("")` stands for a thrown value JavaScript treats as false. */
  datatype Status = Returned(code: int) | Threw(error: string)

  /** What `_argon2_hash_ext` does: how it ends, and the bytes it leaves in
      the `hash` and `encoded` buffers. */
  datatype HashOutcome = HashOutcome(status: Status, digest: seq<bv8>, output: seq<bv8>)

  /** One operation the glue performs on the module. */
  datatype Event =
    | Alloc(ptr: nat, content: seq<bv8>)
    | Free(ptr: nat)
    | EncodedLen(args: EncodedLenArgs)
    | HashExt(call: HashExtCall)
    | ErrorMessage(res: Option<int>)

  /** The answer of `computeHash`: a string, `undefined`, or a rejected
      promise (when the module object is not there yet). */
  datatype Reply = Text(s: string) | Undefined | Rejected

  /** An HTTP response as `fetch` gives it. */
  datatype Response = Response(ok: bool, body: seq<bv8>)

  /** A zero-filled byte array of length `n`: `new Array(n)` copied into the
      wasm heap by `allocate`. */
  function Zeros(n: nat): (z: seq<bv8>)
    ensures |z| == n && forall i :: 0 <= i < n ==> z[i] == 0
  {
    seq(n, _ => 0)
  }

  /** The instantiated wasm module. */
  class Engine {
    /** Whether the module exports `_argon2_hash_ext`. */
    const hasHashExt: bool
    /** The foreign functions, arbitrary but fixed. */
    const encodedLenOf: EncodedLenArgs -> nat
    const hashExtOf: HashExtCall -> HashOutcome
    const errorMessageOf: Option<int> -> string
    /** `UTF8ToString`: the text a block holds, up to its first zero byte. */
    const utf8ToStringOf: seq<bv8> -> string

    /** Live heap blocks, by address. */
    var blocks: map<nat, seq<bv8>>
    /** The allocator's next free address. */
    var next: nat
    /** Every operation performed on the module, in order. */
    var events: seq<Event>

    ghost predicate Valid()
      reads this
    {
      forall p :: p in blocks ==> p < next
    }

    constructor (hasHashExt: bool, encodedLenOf: EncodedLenArgs -> nat, hashExtOf: HashExtCall -> HashOutcome,
                 errorMessageOf: Option<int> -> string, utf8ToStringOf: seq<bv8> -> string)
      ensures Valid()
      ensures this.hasHashExt == hasHashExt && this.encodedLenOf == encodedLenOf
      ensures this.hashExtOf == hashExtOf && this.errorMessageOf == errorMessageOf
      ensures this.utf8ToStringOf == utf8ToStringOf
      ensures blocks == map[] && events == []
    {
      this.hasHashExt := hasHashExt;
      this.encodedLenOf := encodedLenOf;
      this.hashExtOf := hashExtOf;
      this.errorMessageOf := errorMessageOf;
      this.utf8ToStringOf := utf8ToStringOf;
      blocks := map[];
      next := 0;
      events := [];
    }

    /** `allocate(content, 'i8', ALLOC_NORMAL)`: a fresh block holding a copy of `content`. */
    method Allocate(content: seq<bv8>) returns (ptr: nat)
      requires Valid()
      modifies this
      ensures Valid()
      ensures ptr !in old(blocks) && blocks == old(blocks)[ptr := content]
      ensures ptr == old(next) < next
      ensures events == old(events) + [Alloc(ptr, content)]
    {
      ptr := next;
      blocks := blocks[ptr := content];
      next := next + |content| + 1;
      events := events + [Alloc(ptr, content)];
    }

    /** `_free(ptr)`. */
    method Release(ptr: nat)
      requires Valid()
      modifies this
      ensures Valid()
      ensures blocks == old(blocks) - {ptr}
      ensures events == old(events) + [Free(ptr)]
    {
      blocks := blocks - {ptr};
      events := events + [Free(ptr)];
    }

    /** `_argon2_encodedlen(...)`. */
    method EncodedLength(args: EncodedLenArgs) returns (n: nat)
      modifies this
      ensures n == encodedLenOf(args)
      ensures blocks == old(blocks) && next == old(next)
      ensures events == old(events) + [EncodedLen(args)]
    {
      n := encodedLenOf(args);
      events := events + [EncodedLen(args)];
    }

    /** `_argon2_hash_ext(...)`: writes the digest into the `hash` block and
        the encoded text into the `encoded` block, then returns or throws. */
    method HashExtended(call: HashExtCall) returns (status: Status)
      requires Valid() && call.hash in blocks && call.encoded in blocks
      modifies this
      ensures Valid()
      ensures status == hashExtOf(call).status
      ensures blocks == old(blocks)[call.hash := hashExtOf(call).digest][call.encoded := hashExtOf(call).output]
      ensures next == old(next)
      ensures events == old(events) + [HashExt(call)]
    {
      var outcome := hashExtOf(call);
      blocks := blocks[call.hash := outcome.digest][call.encoded := outcome.output];
      events := events + [HashExt(call)];
      status := outcome.status;
    }

    /** `UTF8ToString(ptr)`: reads the text held by a block. */
    method ReadString(ptr: nat) returns (s: string)
      requires ptr in blocks
      ensures s == utf8ToStringOf(blocks[ptr])
    {
      s := utf8ToStringOf(blocks[ptr]);
    }

    /** `UTF8ToString(_argon2_error_message(res))`; `res` is `undefined`
        (`None`) when the hash call threw. */
    method ErrorMessageOf(res: Option<int>) returns (s: string)
      modifies this
      ensures s == errorMessageOf(res)
      ensures blocks == old(blocks) && next == old(next)
      ensures events == old(events) + [ErrorMessage(res)]
    {
      s := errorMessageOf(res);
      events := events + [ErrorMessage(res)];
    }
  }

  /** `__fetchWasm(url)`: the body of the response, or null when the
      response is not ok. The request itself is the `rsp` parameter. */
  function FetchWasm(rsp: Response): (buf: Option<seq<bv8>>)
    ensures buf.None? <==> !rsp.ok
    ensures buf.Some? ==> buf.value == rsp.body
  {
    if rsp.ok then Some(rsp.body) else None
  }

  /** `__checkWasm(wasm, signature)`: the signature check is commented out
      in the source, so every binary is accepted. */
  function CheckWasm(wasm: seq<bv8>, signature: string): (safe: bool)
    ensures safe
  {
    true
  }

  /** The arguments `__computeHash` passes to `_argon2_encodedlen`. */
  function LengthArgs(params: Params, saltLen: int): (a: EncodedLenArgs)
    ensures a.hashLen == HashLen && a.saltLen == saltLen
  {
    EncodedLenArgs(params.iter, params.mem, params.parallel, saltLen, HashLen, params.argon2Type.Code())
  }

  /** The hash length: fixed, whatever `params.hashLen` says. */
  const HashLen: int := 32

  /** The Argon2 version: 0x13. */
  const Version: int := 0x13

  /** The call `__computeHash` makes into the engine, given the four buffers
      it allocated and the lengths it computed. */
  function Marshal(params: Params, pwd: nat, pwdLen: int, salt: nat, saltLen: int,
                   hash: nat, encoded: nat, encodedLen: int): (c: HashExtCall)
    ensures c.hashLen == 32 && c.version == 0x13
    ensures c.secret == 0 && c.secretLen == 0 && c.ad == 0 && c.adLen == 0
    ensures c.pwdLen == pwdLen && c.saltLen == saltLen && c.encodedLen == encodedLen
    ensures c.tCost == params.iter && c.mCost == params.mem && c.parallelism == params.parallel
    ensures c.argon2Type == params.argon2Type.Code()
  {
    HashExtCall(params.iter, params.mem, params.parallel, pwd, pwdLen, salt, saltLen,
                hash, HashLen, encoded, encodedLen, params.argon2Type.Code(), 0, 0, 0, 0, Version)
  }

  /** The allocations `__computeHash` makes on an engine that has
      `_argon2_hash_ext`, around its `_argon2_encodedlen` query. */
  ghost function Prologue(passwd: string, params: Params, saltBytes: seq<bv8>, encodedLen: nat, c: HashExtCall): seq<Event>
  {
    [Alloc(c.pwd, Utf8(passwd)), Alloc(c.salt, saltBytes), Alloc(c.hash, Zeros(HashLen)),
     EncodedLen(LengthArgs(params, |saltBytes|)),
     Alloc(c.encoded, Zeros(encodedLen + 1))]
  }

  /** Five operations performed one after another. */
  lemma AppendFive(e: seq<Event>, x1: Event, x2: Event, x3: Event, x4: Event, x5: Event)
    ensures e + [x1] + [x2] + [x3] + [x4] + [x5] == e + [x1, x2, x3, x4, x5]
  {
  }

  /** A block of operations followed by one more. */
  lemma AppendOne(e: seq<Event>, xs: seq<Event>, x: Event)
    ensures e + xs + [x] == e + (xs + [x])
  {
  }

  /** Four operations performed one after another. */
  lemma AppendFour(e: seq<Event>, x1: Event, x2: Event, x3: Event, x4: Event)
    ensures e + [x1] + [x2] + [x3] + [x4] == e + [x1, x2, x3, x4]
  {
  }

  /** The `_free` block of `__computeHash`. */
  ghost function Frees(c: HashExtCall): seq<Event>
  {
    [Free(c.pwd), Free(c.salt), Free(c.hash), Free(c.encoded)]
  }

  /** Four live blocks have four different addresses. */
  predicate Distinct(a: nat, b: nat, c: nat, d: nat)
  {
    a != b && a != c && a != d && b != c && b != d && c != d
  }

  /** Freeing four fresh, distinct blocks restores the heap. */
  lemma FreeAll(blocks: map<nat, seq<bv8>>, c: HashExtCall, pwd: seq<bv8>, salt: seq<bv8>, hash: seq<bv8>, encoded: seq<bv8>)
    requires c.pwd !in blocks && c.salt !in blocks && c.hash !in blocks && c.encoded !in blocks
    requires Distinct(c.pwd, c.salt, c.hash, c.encoded)
    ensures blocks[c.pwd := pwd][c.salt := salt][c.hash := hash][c.encoded := encoded]
              - {c.pwd} - {c.salt} - {c.hash} - {c.encoded} == blocks
  {
    var grown := blocks[c.pwd := pwd][c.salt := salt][c.hash := hash][c.encoded := encoded];
    var shrunk := grown - {c.pwd} - {c.salt} - {c.hash} - {c.encoded};
    assert shrunk.Keys == blocks.Keys;
  }

  /** The success test of `__computeHash`: `res === 0 && !err`. */
  predicate Succeeded(status: Status)
  {
    status.Returned? && status.code == 0
  }

  /** The error-message lookup on the failure path: it runs when `err` is
      false, that is when the call returned or threw a false value; `res`
      is then the status code or `undefined`. */
  ghost function ErrorLookup(status: Status): seq<Event>
  {
    if status.Returned? then [ErrorMessage(Some(status.code))]
    else if status.error == "" then [ErrorMessage(None)]
    else []
  }

  /** The engine's writes replace the zero-filled contents of the output blocks. */
  lemma Overwrite(blocks: map<nat, seq<bv8>>, c: HashExtCall, pwd: seq<bv8>, salt: seq<bv8>,
                  zeros: seq<bv8>, zeros': seq<bv8>, digest: seq<bv8>, output: seq<bv8>)
    requires c.hash != c.encoded
    ensures blocks[c.pwd := pwd][c.salt := salt][c.hash := zeros][c.encoded := zeros'][c.hash := digest][c.encoded := output]
            == blocks[c.pwd := pwd][c.salt := salt][c.hash := digest][c.encoded := output]
  {
    var left := blocks[c.pwd := pwd][c.salt := salt][c.hash := zeros][c.encoded := zeros'][c.hash := digest][c.encoded := output];
    var right := blocks[c.pwd := pwd][c.salt := salt][c.hash := digest][c.encoded := output];
    assert left.Keys == right.Keys;
  }

  /** The front-end object. */
  class Argon2 {
    /** `module`: the instantiated engine, `null` until `instanciate` stores it. */
    var engine: Engine?
    /** `__ready`. */
    var ready: bool
    /** Whether `instanciate` has handed a binary to the runtime, whose
        `onRuntimeInitialized` callback may then run. */
    ghost var started: bool

    ghost predicate Valid()
      reads this
    {
      ready ==> started
    }

    /** `new Argon2()`: not ready, no module. */
    constructor ()
      ensures Valid() && !ready && engine == null && !started
    {
      engine := null;
      ready := false;
      started := false;
    }

    /** The `onRuntimeInitialized` callback `instanciate` hands to the
        runtime: the only place `__ready` becomes true. */
    method OnRuntimeInitialized()
      requires started
      modifies this
      ensures Valid() && ready
      ensures engine == old(engine) && started == old(started)
    {
      ready := true;
    }

    /** `instanciate(wasm_url, ecdsa_wasm_pub)`. The fetched response and
        the module the runtime builds from the binary are parameters. Fails
        exactly when the response is not ok, and never changes `__ready`. */
    method Instanciate(rsp: Response, ecdsaWasmPub: string, runtime: Engine) returns (ok: bool)
      requires Valid()
      modifies this
      ensures Valid()
      ensures ok <==> rsp.ok
      ensures ready == old(ready)
      ensures ok ==> engine == runtime && started
      ensures !ok ==> engine == old(engine) && started == old(started)
    {
      var wasmBuf := FetchWasm(rsp);
      if wasmBuf.None? {
        return false;
      }
      var binary := wasmBuf.value;
      var isBinarySafe := CheckWasm(binary, ecdsaWasmPub);
      if !isBinarySafe {
        assert false;
        return false;
      }
      started := true;
      engine := runtime;
      return true;
    }

    /** `computeHash(passwd, params)`: "not ready" before the runtime is
        initialized, without touching the engine; otherwise what
        `__computeHash` answers on the stored module. */
    method ComputeHash(passwd: string, params: Params)
      returns (r: Reply, ghost call: HashExtCall, ghost saltBytes: seq<bv8>, ghost encodedLen: nat)
      requires Valid()
      requires engine != null ==> engine.Valid()
      modifies engine
      ensures Valid() && ready == old(ready) && engine == old(engine)
      ensures engine != null ==> engine.Valid()
      ensures !ready ==> r == Text("not ready")
      ensures !ready && engine != null ==> engine.blocks == old(engine.blocks) && engine.events == old(engine.events)
      ensures ready && engine == null ==> r == Rejected
      ensures ready && engine != null && !engine.hasHashExt ==>
        r == Undefined && engine.blocks == old(engine.blocks) && engine.events == old(engine.events)
      ensures ready && engine != null && engine.hasHashExt ==>
        && call == Marshal(params, call.pwd, |Utf8(passwd)|, call.salt, |saltBytes|, call.hash, call.encoded, encodedLen)
        && |saltBytes| == B64.DataCount(B64.LogicalLength(params.salt))
        && (B64.WellFormed(params.salt) ==> saltBytes == B64.DecodeSpec(params.salt))
        && encodedLen == engine.encodedLenOf(LengthArgs(params, |saltBytes|))
        && call.pwd !in old(engine.blocks) && call.salt !in old(engine.blocks)
        && call.hash !in old(engine.blocks) && call.encoded !in old(engine.blocks)
        && Distinct(call.pwd, call.salt, call.hash, call.encoded)
      ensures ready && engine != null && engine.hasHashExt && Succeeded(engine.hashExtOf(call).status) ==>
        && r == Text(engine.utf8ToStringOf(engine.hashExtOf(call).output))
        && engine.events == old(engine.events) + (Prologue(passwd, params, saltBytes, encodedLen, call) + [HashExt(call)])
        && engine.blocks == old(engine.blocks)[call.pwd := Utf8(passwd)][call.salt := saltBytes]
                              [call.hash := engine.hashExtOf(call).digest][call.encoded := engine.hashExtOf(call).output]
      ensures ready && engine != null && engine.hasHashExt && !Succeeded(engine.hashExtOf(call).status) ==>
        && r == Undefined && engine.blocks == old(engine.blocks)
        && engine.events == old(engine.events) + (Prologue(passwd, params, saltBytes, encodedLen, call) + [HashExt(call)])
                            + ErrorLookup(engine.hashExtOf(call).status) + Frees(call)
    {
      if !ready {
        // No call is made; the ghost results are placeholders.
        r, call, saltBytes, encodedLen := Text("not ready"), Marshal(params, 0, 0, 0, 0, 0, 0, 0), [], 0;
        return;
      }
      if engine == null {
        r, call, saltBytes, encodedLen := Rejected, Marshal(params, 0, 0, 0, 0, 0, 0, 0), [], 0;
        return;
      }
      r, call, saltBytes, encodedLen := ComputeHashWith(engine, passwd, params);
    }
  }

  /** The allocations of `__computeHash`: the UTF-8 password, the decoded
      salt, a zero-filled 32-byte hash buffer, then, after asking the engine
      for `encodedlen`, an output buffer one byte longer than that. */
  method AllocateBuffers(m: Engine, passwd: string, params: Params)
    returns (pwd: nat, pwdlen: nat, salt: nat, saltEncoded: seq<bv8>, hash: nat, encoded: nat, encodedlen: nat)
    requires m.Valid()
    modifies m
    ensures m.Valid()
    ensures pwdlen == |Utf8(passwd)|
    ensures |saltEncoded| == B64.DataCount(B64.LogicalLength(params.salt))
    ensures B64.WellFormed(params.salt) ==> saltEncoded == B64.DecodeSpec(params.salt)
    ensures encodedlen == m.encodedLenOf(LengthArgs(params, |saltEncoded|))
    ensures pwd !in old(m.blocks) && salt !in old(m.blocks) && hash !in old(m.blocks) && encoded !in old(m.blocks)
    ensures Distinct(pwd, salt, hash, encoded)
    ensures m.blocks == old(m.blocks)[pwd := Utf8(passwd)][salt := saltEncoded][hash := Zeros(HashLen)][encoded := Zeros(encodedlen + 1)]
    ensures m.events == old(m.events) + Prologue(passwd, params, saltEncoded, encodedlen,
                                                 Marshal(params, pwd, pwdlen, salt, |saltEncoded|, hash, encoded, encodedlen))
  {
    ghost var trace := m.events;
    var hashlen := HashLen;

    var passEncoded := Utf8(passwd);
    pwd := m.Allocate(passEncoded);
    pwdlen := |passEncoded|;

    saltEncoded := B64.Decode(params.salt);
    salt := m.Allocate(saltEncoded);
    var saltlen := |saltEncoded|;

    hash := m.Allocate(Zeros(hashlen));

    encodedlen := m.EncodedLength(LengthArgs(params, saltlen));
    encoded := m.Allocate(Zeros(encodedlen + 1));
    AppendFive(trace, Alloc(pwd, passEncoded), Alloc(salt, saltEncoded), Alloc(hash, Zeros(hashlen)),
               EncodedLen(LengthArgs(params, saltlen)), Alloc(encoded, Zeros(encodedlen + 1)));
    ghost var c := Marshal(params, pwd, pwdlen, salt, saltlen, hash, encoded, encodedlen);
    assert c.pwd == pwd && c.salt == salt && c.hash == hash && c.encoded == encoded;
  }

  /** `__computeHash(passwd, params)` on the module `m`. Without
      `_argon2_hash_ext` it returns undefined before allocating. Otherwise it
      allocates the password, the decoded salt, a 32-byte hash buffer and an
      `encodedlen + 1` byte output buffer, and calls the engine. On success
      it returns the text the engine left in the output buffer and leaves the
      four buffers allocated; on any other outcome it looks up the error
      message when there is no exception value, frees the four buffers and
      returns undefined. */
  method ComputeHashWith(m: Engine, passwd: string, params: Params)
    returns (r: Reply, ghost call: HashExtCall, ghost saltBytes: seq<bv8>, ghost encodedLen: nat)
    requires m.Valid()
    modifies m
    ensures m.Valid()
    ensures !m.hasHashExt ==> r == Undefined && m.blocks == old(m.blocks) && m.events == old(m.events)
    ensures m.hasHashExt ==>
      && |saltBytes| == B64.DataCount(B64.LogicalLength(params.salt))
      && (B64.WellFormed(params.salt) ==> saltBytes == B64.DecodeSpec(params.salt))
      && encodedLen == m.encodedLenOf(LengthArgs(params, |saltBytes|))
      && call == Marshal(params, call.pwd, |Utf8(passwd)|, call.salt, |saltBytes|, call.hash, call.encoded, encodedLen)
      && call.pwd !in old(m.blocks) && call.salt !in old(m.blocks)
      && call.hash !in old(m.blocks) && call.encoded !in old(m.blocks)
      && Distinct(call.pwd, call.salt, call.hash, call.encoded)
    ensures m.hasHashExt && Succeeded(m.hashExtOf(call).status) ==>
      && r == Text(m.utf8ToStringOf(m.hashExtOf(call).output))
      && m.events == old(m.events) + (Prologue(passwd, params, saltBytes, encodedLen, call) + [HashExt(call)])
      && m.blocks == old(m.blocks)[call.pwd := Utf8(passwd)][call.salt := saltBytes]
                                  [call.hash := m.hashExtOf(call).digest][call.encoded := m.hashExtOf(call).output]
    ensures m.hasHashExt && !Succeeded(m.hashExtOf(call).status) ==>
      && r == Undefined && m.blocks == old(m.blocks)
      && m.events == old(m.events) + (Prologue(passwd, params, saltBytes, encodedLen, call) + [HashExt(call)])
                     + ErrorLookup(m.hashExtOf(call).status) + Frees(call)
  {
    if !m.hasHashExt {
      // No call is made; the ghost results are placeholders.
      r, call, saltBytes, encodedLen := Undefined, Marshal(params, 0, 0, 0, 0, 0, 0, 0), [], 0;
      return;
    }

    ghost var before, trace := m.blocks, m.events;
    var pwd, pwdlen, salt, saltEncoded, hash, encoded, encodedlen := AllocateBuffers(m, passwd, params);
    var saltlen := |saltEncoded|;
    saltBytes, encodedLen := saltEncoded, encodedlen;
    var args := Marshal(params, pwd, pwdlen, salt, saltlen, hash, encoded, encodedlen);
    call := args;
    var res := m.HashExtended(args);
    ghost var outcome := m.hashExtOf(args);
    AppendOne(trace, Prologue(passwd, params, saltEncoded, encodedlen, args), HashExt(args));
    Overwrite(before, args, Utf8(passwd), saltEncoded, Zeros(HashLen), Zeros(encodedlen + 1), outcome.digest, outcome.output);
    trace := m.events;

    if Succeeded(res) {
      var text := m.ReadString(encoded);
      r := Text(text);
      return;
    }
    // The error message is only logged.
    if res.Returned? {
      var err := m.ErrorMessageOf(Some(res.code));
    } else if res.error == "" {
      var err := m.ErrorMessageOf(None);
    }
    assert m.events == trace + ErrorLookup(res);
    trace := m.events;

    m.Release(pwd);
    m.Release(salt);
    m.Release(hash);
    m.Release(encoded);
    AppendFour(trace, Free(pwd), Free(salt), Free(hash), Free(encoded));
    FreeAll(before, call, Utf8(passwd), saltEncoded, outcome.digest, outcome.output);
    r := Undefined;
  }
}
