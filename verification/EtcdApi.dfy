/** The POST and DELETE handlers over the etcd backend, which has no transactions: a failed batch keeps what its
    earlier lines did. */
module EtcdApi {
  import opened Strings
  import opened Records
  import opened DynamicRecords
  import opened Placeholders
  import opened Semicolons
  import opened Store
  import opened Etcd
  import opened EtcdResolver
  import opened RestApi

  /** The states between the lines of a batch, up to some line. */
  ghost predicate IsTrace(prefix: string, trace: seq<(Files, nat)>, rs: seq<DynamicRecord>, now: int) {
    1 <= |trace| <= |rs| + 1 &&
    forall i :: 0 <= i < |trace| - 1 ==> LineStep(prefix, trace[i], trace[i + 1], rs[i], now)
  }

  /** What a batch does: all its lines, or the lines before the one that failed and perhaps half of that. */
  ghost predicate IsApplied(prefix: string, trace: seq<(Files, nat)>, after: (Files, nat), rs: seq<DynamicRecord>,
                            now: int, ok: bool)
  {
    IsTrace(prefix, trace, rs, now) &&
    if ok then |trace| == |rs| + 1 && trace[|rs|] == after
    else |trace| <= |rs| && HalfStep(prefix, trace[|trace| - 1], after, rs[|trace| - 1], now) &&
         HasUnreadable(after.0, now)
  }

  /** A batch that does on a permanent, legible store what it does to the reference store. */
  ghost predicate IsSafe(files: Files, rs: seq<DynamicRecord>) {
    Unique(files) && AllSound(files) && Plain(rs) && NoSemicolons(rs)
  }

  class DynamicAPI {
    const resolver: EtcdResolver

    constructor (resolver: EtcdResolver)
      ensures this.resolver == resolver
    {
      this.resolver := resolver;
    }

    method SetRecords(rs: array<DynamicRecord>, now: int) returns (response: Response, ghost trace: seq<(Files, nat)>)
      requires resolver.Valid() && WellFormedBatch(rs[..])
      modifies resolver
      ensures resolver.Valid()
      ensures response.Answered? || response.InternalServerError?
      ensures response.Answered? ==>
        response.message ==
          "; 200: add:" + Itoa(rs.Length - CountDisabled(rs[..])) + " delete:" + Itoa(CountDisabled(rs[..]))
      ensures IsApplied(resolver.prefix, trace, (resolver.files, resolver.last), rs[..], now, response.Answered?)
      ensures trace[0] == (old(resolver.files), old(resolver.last))
      ensures IsSafe(old(resolver.files), rs[..]) ==>
        response.Answered? && Unique(resolver.files) && AllSound(resolver.files) &&
        resolver.Contents() == ApplyAll(old(resolver.Contents()), PlainOps(rs[..]))
    {
      hide WellFormedBatch, LineStep, HalfStep, HasUnreadable, ApplyAll, PlainOps, TableOf, Unique, Plain;
      hide Holds;
      var ok;
      ok, trace := resolver.SetRecords(rs[..], now);
      if !ok {
        return InternalServerError, trace;
      }
      var message := CountLines(rs);
      return Answered(message), trace;
    }

    method PostRecords(req: string, remote: string, now: int)
      returns (response: Response, ghost trace: seq<(Files, nat)>)
      requires resolver.Valid()
      modifies resolver
      ensures resolver.Valid() && IsHandled(response, Parsed(Filled(req, remote)))
      ensures !response.Answered? && !response.InternalServerError? ==>
        resolver.files == old(resolver.files) && resolver.last == old(resolver.last)
      ensures response.Answered? || response.InternalServerError? ==>
        var rs := Parsed(Filled(req, remote)).value;
        IsApplied(resolver.prefix, trace, (resolver.files, resolver.last), rs, now, response.Answered?) &&
        trace[0] == (old(resolver.files), old(resolver.last))
      ensures Parsed(Filled(req, remote)).Ok? && IsSafe(old(resolver.files), Parsed(Filled(req, remote)).value) ==>
        var rs := Parsed(Filled(req, remote)).value;
        response.Answered? &&
        response.message == "; 200: add:" + Itoa(|rs| - CountDisabled(rs)) + " delete:" + Itoa(CountDisabled(rs)) &&
        Unique(resolver.files) && AllSound(resolver.files) &&
        resolver.Contents() == ApplyAll(old(resolver.Contents()), PlainOps(rs))
    {
      hide Parsed, IsApplied, IsSafe, ApplyAll, PlainOps, TableOf, WellFormedBatch, CountDisabled, Unique;
      hide Holds;
      trace := [];
      var parsed := ParseRecordSet(req, remote);
      match parsed {
        case Panicked => return NoAnswer, trace;
        case Malformed => return BadRequest, trace;
        case Ok(rs) => response, trace := SetRecords(rs, now);
      }
    }

    method DeleteRecords(req: string, remote: string, now: int)
      returns (response: Response, ghost trace: seq<(Files, nat)>)
      requires resolver.Valid()
      modifies resolver
      ensures resolver.Valid() && IsHandled(response, Parsed(Filled(req, remote)))
      ensures !response.Answered? && !response.InternalServerError? ==>
        resolver.files == old(resolver.files) && resolver.last == old(resolver.last)
      ensures response.Answered? || response.InternalServerError? ==>
        var rs := Flipped(Parsed(Filled(req, remote)).value);
        IsApplied(resolver.prefix, trace, (resolver.files, resolver.last), rs, now, response.Answered?) &&
        trace[0] == (old(resolver.files), old(resolver.last))
      ensures Parsed(Filled(req, remote)).Ok? &&
              IsSafe(old(resolver.files), Flipped(Parsed(Filled(req, remote)).value)) ==>
        var rs := Parsed(Filled(req, remote)).value;
        response.Answered? &&
        response.message == "; 200: add:" + Itoa(CountDisabled(rs)) + " delete:" + Itoa(|rs| - CountDisabled(rs)) &&
        Unique(resolver.files) && AllSound(resolver.files) &&
        resolver.Contents() == ApplyAll(old(resolver.Contents()), PlainOps(Flipped(rs)))
    {
      hide Parsed, IsApplied, IsSafe, ApplyAll, PlainOps, TableOf, WellFormedBatch, CountDisabled, Unique;
      hide Holds, Flipped;
      trace := [];
      var parsed := ParseRecordSet(req, remote);
      match parsed {
        case Panicked => return NoAnswer, trace;
        case Malformed => return BadRequest, trace;
        case Ok(rs) =>
          FlipAll(rs);
          FlipExchangesCounts(Parsed(Filled(req, remote)).value);
          response, trace := SetRecords(rs, now);
      }
    }
  }

  /** Which requests never reach the store. */
  predicate IsHandled(response: Response, parsed: Outcome<seq<DynamicRecord>>) {
    (response.NoAnswer? <==> parsed.Panicked?) && (response.BadRequest? <==> parsed.Malformed?)
  }

  lemma FlippedSafe(files: Files, rs: seq<DynamicRecord>)
    requires Unique(files) && AllSound(files) && Plain(rs) && NoSemicolons(rs)
    ensures IsSafe(files, Flipped(rs))
  {
    hide Unique, AllSound, HoldsSemicolon;
  }

  /** POST and then DELETE of one body of enabled lines on a permanent, legible etcd store: as in SQLite no row that
      the body names is left, and every other row is as it was. */
  method PostAndDelete(api: DynamicAPI, req: string, remote: string, now: int, later: int)
    returns (posted: Response, deleted: Response)
    requires api.resolver.Valid()
    modifies api.resolver
    ensures api.resolver.Valid()
    ensures var body := Parsed(Filled(req, remote));
            body.Ok? && AllEnabled(body.value) && IsSafe(old(api.resolver.files), body.value) ==>
              posted.Answered? && posted.message == "; 200: add:" + Itoa(|body.value|) + " delete:0" &&
              deleted.Answered? && deleted.message == "; 200: add:0 delete:" + Itoa(|body.value|) &&
              Unique(api.resolver.files) && AllSound(api.resolver.files) &&
              WithoutNamed(old(api.resolver.Contents()), body.value, api.resolver.Contents())
  {
    hide Parsed, IsApplied, ApplyAll, PlainOps, TableOf, CountDisabled, Unique, AllSound, Names, Flipped, Holds;
    ghost var body, t := Parsed(Filled(req, remote)), api.resolver.Contents();
    ghost var safe := body.Ok? && AllEnabled(body.value) && IsSafe(api.resolver.files, body.value);
    ghost var trace;
    posted, trace := api.PostRecords(req, remote, now);
    if safe {
      FlippedSafe(api.resolver.files, body.value);
    }
    deleted, trace := api.DeleteRecords(req, remote, later);
    if safe {
      var rs, at := body.value, seq(|body.value|, _ => MIDNIGHT);
      NoneDisabled(rs);
      PlainBatchOps(rs, at);
      PlainBatchOps(Flipped(rs), at);
      PostThenDelete(t, rs, at, at);
    }
  }
}
