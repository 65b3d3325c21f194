/** The streaming hash contexts of CryptoHash.h and the calls on them in CryptoEngine.cpp.
    Each context keeps the list of all calls made on it, so that its contracts speak of whole runs. */
module Engine {
  import opened Bits
  import opened Bytes
  import opened Session
  import opened Status
  import Sha256
  import Narrow = SoftSha256
  import Wide = SoftSha512

  // ---------- SHA-256

  class Sha256Context {
    const hasher: Narrow.Hasher
    var active: bool
    ghost var calls: seq<Call>

    ghost predicate Valid()
      reads this, hasher, hasher.state_, hasher.buffer_
    {
      && hasher.Shaped() && hasher.Valid()
      && active == Run(calls).Open?
      && (active ==> Run(calls) == Open(hasher.message))
    }

    constructor ()
      ensures Valid() && calls == [] && fresh(hasher) && fresh(hasher.state_) && fresh(hasher.buffer_)
    {
      hide Run, Narrow.Hasher.Valid, Narrow.Hasher.Absorbed, Opened, LatestBegin, OpenFrom;
      RunNothing();
      hasher := new Narrow.Hasher();
      active := false;
      calls := [];
    }

    method ResetContext()
      requires Valid()
      modifies this, hasher`bitLen_, hasher`bufferLen_, hasher`message, hasher.state_
      ensures Valid() && calls == old(calls) + [Reset]
    {
      hide Run, Narrow.Hasher.Valid, Narrow.Hasher.Absorbed, Opened, LatestBegin, OpenFrom;
      hasher.Reset();
      active := false;
      RunStep(calls, Reset);
      calls := calls + [Reset];
    }
  }

  method Sha256Begin(ctx: Sha256Context) returns (status: CryptoStatus)
    requires ctx.Valid()
    modifies ctx, ctx.hasher`bitLen_, ctx.hasher`bufferLen_, ctx.hasher`message, ctx.hasher.state_
    ensures ctx.Valid() && ctx.calls == old(ctx.calls) + [Begin] && status == Ok
  {
    hide Run, Narrow.Hasher.Valid, Narrow.Hasher.Absorbed, Opened, LatestBegin, OpenFrom;
    ctx.hasher.Reset();
    ctx.active := true;
    RunStep(ctx.calls, Begin);
    ctx.calls := ctx.calls + [Begin];
    status := Ok;
  }

  method Sha256Update(ctx: Sha256Context, data: Input) returns (status: CryptoStatus)
    requires ctx.Valid()
    modifies ctx, ctx.hasher, ctx.hasher.state_, ctx.hasher.buffer_
    ensures ctx.Valid() && ctx.calls == old(ctx.calls) + [Update(data)]
    ensures status == if Opened(old(ctx.calls)) then Ok else BadParam
  {
    hide Run, Narrow.Hasher.Valid, Narrow.Hasher.Absorbed, Opened, LatestBegin, OpenFrom;
    OpenIff(ctx.calls);
    RunStep(ctx.calls, Update(data));
    ctx.calls := ctx.calls + [Update(data)];
    if !ctx.active {
      return BadParam;
    }
    ctx.hasher.Update(data);
    status := Ok;
  }

  /** Succeeds, given an output, exactly when a Begin is open, and then digests the bytes since the latest one. */
  method Sha256Finish(ctx: Sha256Context, out: array?<byte>) returns (status: CryptoStatus)
    requires ctx.Valid() && (out != null ==> out.Length == 32 && ctx.hasher.Apart(out))
    modifies ctx, ctx.hasher, ctx.hasher.state_, ctx.hasher.buffer_, out
    ensures ctx.Valid() && ctx.calls == old(ctx.calls) + [Finish(out != null)]
    ensures status == if out != null && Opened(old(ctx.calls)) then Ok else BadParam
    ensures status == Ok ==> forall b: nat | LatestBegin(old(ctx.calls), b) ::
      out[..] == Sha256.Hash(DataOf(old(ctx.calls)[b + 1..]))
    ensures status != Ok && out != null ==> out[..] == old(out[..])
  {
    hide Run, Narrow.Hasher.Valid, Narrow.Hasher.Absorbed, Opened, LatestBegin, OpenFrom;
    hide Sha256.Hash, DataOf;
    ghost var before := ctx.calls;
    OpenIff(before);
    RunStep(before, Finish(out != null));
    ctx.calls := before + [Finish(out != null)];
    if !ctx.active || out == null {
      return BadParam;
    }
    ghost var m := ctx.hasher.message;
    OpenHoldsAll(before, m);
    ctx.hasher.Finish(out);
    assert out[..] == out[..32] == Sha256.Hash(m);
    ctx.active := false;
    status := Ok;
  }

  // ---------- SHA-384

  class Sha384Context {
    const hasher: Wide.Hasher
    var active: bool
    ghost var calls: seq<Call>

    /** An open context is in the SHA-384 variant, although construction and finish leave the hasher in the
        SHA-512 variant. */
    ghost predicate Valid()
      reads this, hasher, hasher.state_, hasher.buffer_
    {
      && hasher.Shaped() && hasher.Valid()
      && active == Run(calls).Open?
      && (active ==> Run(calls) == Open(hasher.message) && hasher.digestLen_ == 48)
    }

    constructor ()
      ensures Valid() && calls == [] && fresh(hasher) && fresh(hasher.state_) && fresh(hasher.buffer_)
    {
      hide Run, Wide.Hasher.Valid, Wide.Hasher.Absorbed, Opened, LatestBegin, OpenFrom;
      RunNothing();
      hasher := new Wide.Hasher();
      active := false;
      calls := [];
    }

    method ResetContext()
      requires Valid()
      modifies this, hasher`bitLen_, hasher`bufferLen_, hasher`message, hasher`digestLen_, hasher.state_
      ensures Valid() && calls == old(calls) + [Reset]
    {
      hide Run, Wide.Hasher.Valid, Wide.Hasher.Absorbed, Opened, LatestBegin, OpenFrom;
      hasher.Reset384();
      active := false;
      RunStep(calls, Reset);
      calls := calls + [Reset];
    }
  }

  method Sha384Begin(ctx: Sha384Context) returns (status: CryptoStatus)
    requires ctx.Valid()
    modifies ctx, ctx.hasher`bitLen_, ctx.hasher`bufferLen_, ctx.hasher`message, ctx.hasher`digestLen_,
      ctx.hasher.state_
    ensures ctx.Valid() && ctx.calls == old(ctx.calls) + [Begin] && status == Ok
  {
    hide Run, Wide.Hasher.Valid, Wide.Hasher.Absorbed, Opened, LatestBegin, OpenFrom;
    ctx.hasher.Reset384();
    ctx.active := true;
    RunStep(ctx.calls, Begin);
    ctx.calls := ctx.calls + [Begin];
    status := Ok;
  }

  method Sha384Update(ctx: Sha384Context, data: Input) returns (status: CryptoStatus)
    requires ctx.Valid()
    modifies ctx, ctx.hasher, ctx.hasher.state_, ctx.hasher.buffer_
    ensures ctx.Valid() && ctx.calls == old(ctx.calls) + [Update(data)]
    ensures status == if Opened(old(ctx.calls)) then Ok else BadParam
  {
    hide Run, Wide.Hasher.Valid, Wide.Hasher.Absorbed, Opened, LatestBegin, OpenFrom;
    OpenIff(ctx.calls);
    RunStep(ctx.calls, Update(data));
    ctx.calls := ctx.calls + [Update(data)];
    if !ctx.active {
      return BadParam;
    }
    ctx.hasher.Update(data);
    status := Ok;
  }

  /** Succeeds, given an output, exactly when a Begin is open, and then digests the bytes since the latest one. */
  method Sha384Finish(ctx: Sha384Context, out: array?<byte>) returns (status: CryptoStatus)
    requires ctx.Valid() && (out != null ==> out.Length == 48 && ctx.hasher.Apart(out))
    modifies ctx, ctx.hasher, ctx.hasher.state_, ctx.hasher.buffer_, out
    ensures ctx.Valid() && ctx.calls == old(ctx.calls) + [Finish(out != null)]
    ensures status == if out != null && Opened(old(ctx.calls)) then Ok else BadParam
    ensures status == Ok ==> forall b: nat | LatestBegin(old(ctx.calls), b) ::
      out[..] == Wide.Digest(48, DataOf(old(ctx.calls)[b + 1..]))
    ensures status != Ok && out != null ==> out[..] == old(out[..])
  {
    hide Run, Wide.Hasher.Valid, Wide.Hasher.Absorbed, Opened, LatestBegin, OpenFrom;
    hide Wide.Digest, DataOf;
    ghost var before := ctx.calls;
    OpenIff(before);
    RunStep(before, Finish(out != null));
    ctx.calls := before + [Finish(out != null)];
    if !ctx.active || out == null {
      return BadParam;
    }
    ghost var m := ctx.hasher.message;
    OpenHoldsAll(before, m);
    ctx.hasher.Finish(out);
    assert out[..] == out[..48] == Wide.Digest(48, m);
    ctx.active := false;
    status := Ok;
  }

  // ---------- SHA-512

  class Sha512Context {
    const hasher: Wide.Hasher
    var active: bool
    ghost var calls: seq<Call>

    ghost predicate Valid()
      reads this, hasher, hasher.state_, hasher.buffer_
    {
      && hasher.Shaped() && hasher.Valid()
      && active == Run(calls).Open?
      && (active ==> Run(calls) == Open(hasher.message) && hasher.digestLen_ == 64)
    }

    constructor ()
      ensures Valid() && calls == [] && fresh(hasher) && fresh(hasher.state_) && fresh(hasher.buffer_)
    {
      hide Run, Wide.Hasher.Valid, Wide.Hasher.Absorbed, Opened, LatestBegin, OpenFrom;
      RunNothing();
      hasher := new Wide.Hasher();
      active := false;
      calls := [];
    }

    method ResetContext()
      requires Valid()
      modifies this, hasher`bitLen_, hasher`bufferLen_, hasher`message, hasher`digestLen_, hasher.state_
      ensures Valid() && calls == old(calls) + [Reset]
    {
      hide Run, Wide.Hasher.Valid, Wide.Hasher.Absorbed, Opened, LatestBegin, OpenFrom;
      hasher.Reset();
      active := false;
      RunStep(calls, Reset);
      calls := calls + [Reset];
    }
  }

  method Sha512Begin(ctx: Sha512Context) returns (status: CryptoStatus)
    requires ctx.Valid()
    modifies ctx, ctx.hasher`bitLen_, ctx.hasher`bufferLen_, ctx.hasher`message, ctx.hasher`digestLen_,
      ctx.hasher.state_
    ensures ctx.Valid() && ctx.calls == old(ctx.calls) + [Begin] && status == Ok
  {
    hide Run, Wide.Hasher.Valid, Wide.Hasher.Absorbed, Opened, LatestBegin, OpenFrom;
    ctx.hasher.Reset();
    ctx.active := true;
    RunStep(ctx.calls, Begin);
    ctx.calls := ctx.calls + [Begin];
    status := Ok;
  }

  method Sha512Update(ctx: Sha512Context, data: Input) returns (status: CryptoStatus)
    requires ctx.Valid()
    modifies ctx, ctx.hasher, ctx.hasher.state_, ctx.hasher.buffer_
    ensures ctx.Valid() && ctx.calls == old(ctx.calls) + [Update(data)]
    ensures status == if Opened(old(ctx.calls)) then Ok else BadParam
  {
    hide Run, Wide.Hasher.Valid, Wide.Hasher.Absorbed, Opened, LatestBegin, OpenFrom;
    OpenIff(ctx.calls);
    RunStep(ctx.calls, Update(data));
    ctx.calls := ctx.calls + [Update(data)];
    if !ctx.active {
      return BadParam;
    }
    ctx.hasher.Update(data);
    status := Ok;
  }

  /** Succeeds, given an output, exactly when a Begin is open, and then digests the bytes since the latest one. */
  method Sha512Finish(ctx: Sha512Context, out: array?<byte>) returns (status: CryptoStatus)
    requires ctx.Valid() && (out != null ==> out.Length == 64 && ctx.hasher.Apart(out))
    modifies ctx, ctx.hasher, ctx.hasher.state_, ctx.hasher.buffer_, out
    ensures ctx.Valid() && ctx.calls == old(ctx.calls) + [Finish(out != null)]
    ensures status == if out != null && Opened(old(ctx.calls)) then Ok else BadParam
    ensures status == Ok ==> forall b: nat | LatestBegin(old(ctx.calls), b) ::
      out[..] == Wide.Digest(64, DataOf(old(ctx.calls)[b + 1..]))
    ensures status != Ok && out != null ==> out[..] == old(out[..])
  {
    hide Run, Wide.Hasher.Valid, Wide.Hasher.Absorbed, Opened, LatestBegin, OpenFrom;
    hide Wide.Digest, DataOf;
    ghost var before := ctx.calls;
    OpenIff(before);
    RunStep(before, Finish(out != null));
    ctx.calls := before + [Finish(out != null)];
    if !ctx.active || out == null {
      return BadParam;
    }
    ghost var m := ctx.hasher.message;
    OpenHoldsAll(before, m);
    ctx.hasher.Finish(out);
    assert out[..] == out[..64] == Wide.Digest(64, m);
    ctx.active := false;
    status := Ok;
  }
}
