/** The `blobrange <start|stop|check|purge|forcepurge> <startkey> <endkey>
    [version]` command of the command-line client: token-count check,
    tenant prefixing, the system-keyspace and ordering checks, the choice of
    subcommand, the optional version token, and the purge version. The one
    database answer the command's result depends on (whether blobbifyRange
    or unblobbifyRange succeeded) is a parameter, and so is the latest read
    version a purge without a version falls back to. */
module BlobRangeCommand {
  import opened Keys
  import opened Ranges
  import opened ScanInt64

  /** The request the command hands to the database, if any. */
  datatype ServiceCall =
    | NoCall
    | BlobbifyCall(range: KeyRange)
    | UnblobbifyCall(range: KeyRange)
    | PurgeCall(range: KeyRange, version: int, force: bool)
    | VerifyCall(range: KeyRange, atVersion: Option<int>)

  /** The call made and the boolean the command returns. */
  datatype Outcome = Outcome(call: ServiceCall, ok: bool)

  const StartWord: Key := [0x73, 0x74, 0x61, 0x72, 0x74]                          // start
  const StopWord: Key := [0x73, 0x74, 0x6f, 0x70]                                 // stop
  const PurgeWord: Key := [0x70, 0x75, 0x72, 0x67, 0x65]                          // purge
  const ForcePurgeWord: Key := [0x66, 0x6f, 0x72, 0x63, 0x65] + PurgeWord         // forcepurge
  const CheckWord: Key := [0x63, 0x68, 0x65, 0x63, 0x6b]                          // check

  /** "\xff": the first key of the system keyspace. */
  const SystemKeys: Key := [0xff]

  /** The key range the command names: tokens 2 and 3, under the tenant's
      prefix when a tenant is given. */
  function CommandRange(tokens: seq<Key>, tenantPrefix: Option<Key>): (r: KeyRange)
    requires |tokens| >= 4
    ensures tenantPrefix.None? ==> r == KeyRange(tokens[2], tokens[3])
    ensures tenantPrefix.Some? ==>
              var p := tenantPrefix.value;
              && |p| <= |r.begin| && r.begin[..|p|] == p && r.begin[|p|..] == tokens[2]
              && |p| <= |r.end| && r.end[..|p|] == p && r.end[|p|..] == tokens[3]
  {
    if tenantPrefix.Some? then
      var p := tenantPrefix.value;
      assert (p + tokens[2])[..|p|] == p && (p + tokens[2])[|p|..] == tokens[2];
      assert (p + tokens[3])[..|p|] == p && (p + tokens[3])[|p|..] == tokens[3];
      KeyRange(p + tokens[2], p + tokens[3])
    else KeyRange(tokens[2], tokens[3])
  }

  /** blobRangeCommandActor. Every call it makes names a non-empty range
      that ends at or below "\xff"; a start or stop returns what the
      database answered, and a purge or check returns true. */
  function BlobRange(tokens: seq<Key>, tenantPrefix: Option<Key>, serviceReply: bool, latestReadVersion: int)
    : (o: Outcome)
    requires |tokens| >= 1
    ensures o.call != NoCall ==> WellFormed(o.call.range) && LessEq(o.call.range.end, SystemKeys)
    ensures o.call.BlobbifyCall? || o.call.UnblobbifyCall? ==> o.ok == serviceReply
    ensures o.call.PurgeCall? || o.call.VerifyCall? ==> o.ok
  {
    if |tokens| != 4 && |tokens| != 5 then Outcome(NoCall, false)
    else
      var range := CommandRange(tokens, tenantPrefix);
      if Less(SystemKeys, range.end) then Outcome(NoCall, false)
      else if !Less(tokens[2], tokens[3]) then Outcome(NoCall, true)
      else
        PrefixKeepsOrder(tokens, tenantPrefix);
        LessTotal(SystemKeys, range.end);
        if tokens[1] == StartWord || tokens[1] == StopWord then
          if |tokens| > 4 then Outcome(NoCall, false)
          else if tokens[1] == StartWord then Outcome(BlobbifyCall(range), serviceReply)
          else Outcome(UnblobbifyCall(range), serviceReply)
        else if tokens[1] == PurgeWord || tokens[1] == ForcePurgeWord || tokens[1] == CheckWord then
          var purge := tokens[1] == PurgeWord || tokens[1] == ForcePurgeWord;
          var forcePurge := tokens[1] == ForcePurgeWord;
          if |tokens| > 4 && Scan(tokens[4]).None? then Outcome(NoCall, false)
          else
            var version := if |tokens| > 4 then Scan(tokens[4]) else None;
            // doBlobPurge: the given version, or else the latest read version
            var purgeVersion := if version.Some? then version.value else latestReadVersion;
            if purge then Outcome(PurgeCall(range, purgeVersion, forcePurge), true)
            else Outcome(VerifyCall(range, version), true)
        else Outcome(NoCall, false)
  }

  /** The tenant prefix does not change the order of the two keys: the
      ordering test on the bare tokens is the test on the range. */
  lemma PrefixKeepsOrder(tokens: seq<Key>, tenantPrefix: Option<Key>)
    requires |tokens| >= 4
    ensures var r := CommandRange(tokens, tenantPrefix);
            Less(r.begin, r.end) <==> Less(tokens[2], tokens[3])
  {
    if tenantPrefix.Some? {
      LessCommonPrefix(tenantPrefix.value, tokens[2], tokens[3]);
    }
  }

  /** Neither 4 nor 5 tokens: false, and nothing is asked of the database. */
  lemma TokenCountRejected(tokens: seq<Key>, tenantPrefix: Option<Key>, serviceReply: bool, latestReadVersion: int)
    requires |tokens| >= 1 && |tokens| != 4 && |tokens| != 5
    ensures BlobRange(tokens, tenantPrefix, serviceReply, latestReadVersion) == Outcome(NoCall, false)
  {
  }

  /** Whatever the call, its range is tokens 2 and 3 under the tenant
      prefix, or the bare tokens without a tenant. */
  lemma CallRange(tokens: seq<Key>, tenantPrefix: Option<Key>, serviceReply: bool, latestReadVersion: int)
    requires |tokens| >= 1
    ensures var o := BlobRange(tokens, tenantPrefix, serviceReply, latestReadVersion);
            o.call != NoCall ==>
              && |tokens| >= 4
              && var p := if tenantPrefix.Some? then tenantPrefix.value else [];
                 o.call.range == KeyRange(p + tokens[2], p + tokens[3])
  {
    if |tokens| >= 4 && tenantPrefix.None? {
      assert [] + tokens[2] == tokens[2] && [] + tokens[3] == tokens[3];
    }
  }

  /** A (prefixed) end key above "\xff" is refused with false. */
  lemma SystemKeyspaceRejected(tokens: seq<Key>, tenantPrefix: Option<Key>, serviceReply: bool, latestReadVersion: int)
    requires |tokens| == 4 || |tokens| == 5
    requires Less(SystemKeys, CommandRange(tokens, tenantPrefix).end)
    ensures BlobRange(tokens, tenantPrefix, serviceReply, latestReadVersion) == Outcome(NoCall, false)
  {
  }

  /** startkey >= endkey is reported but falls through to true, with no
      call. */
  lemma MisorderedFallsThrough(tokens: seq<Key>, tenantPrefix: Option<Key>, serviceReply: bool, latestReadVersion: int)
    requires |tokens| == 4 || |tokens| == 5
    requires LessEq(CommandRange(tokens, tenantPrefix).end, SystemKeys)
    requires LessEq(tokens[3], tokens[2])
    ensures BlobRange(tokens, tenantPrefix, serviceReply, latestReadVersion) == Outcome(NoCall, true)
  {
    var r := CommandRange(tokens, tenantPrefix);
    LessEqNotAbove(r.end, SystemKeys);
    LessEqNotAbove(tokens[3], tokens[2]);
  }

  /** A valid range under start or stop: a version token makes it false;
      otherwise it asks to blobbify (start) or unblobbify (stop) the range
      and returns the answer. */
  lemma StartStop(tokens: seq<Key>, tenantPrefix: Option<Key>, serviceReply: bool, latestReadVersion: int)
    requires |tokens| == 4 || |tokens| == 5
    requires LessEq(CommandRange(tokens, tenantPrefix).end, SystemKeys) && Less(tokens[2], tokens[3])
    requires tokens[1] == StartWord || tokens[1] == StopWord
    ensures var o := BlobRange(tokens, tenantPrefix, serviceReply, latestReadVersion);
            var r := CommandRange(tokens, tenantPrefix);
            && (|tokens| == 5 ==> o == Outcome(NoCall, false))
            && (|tokens| == 4 && tokens[1] == StartWord ==> o == Outcome(BlobbifyCall(r), serviceReply))
            && (|tokens| == 4 && tokens[1] == StopWord ==> o == Outcome(UnblobbifyCall(r), serviceReply))
  {
    LessEqNotAbove(CommandRange(tokens, tenantPrefix).end, SystemKeys);
  }

  /** A valid range under purge, forcepurge or check: a version token
      that is not a whole 64-bit integer makes it false; otherwise it
      purges (forcing only for forcepurge) at the given version or the
      latest read version, or checks at the given version, and returns
      true. */
  lemma PurgeAndCheck(tokens: seq<Key>, tenantPrefix: Option<Key>, serviceReply: bool, latestReadVersion: int)
    requires |tokens| == 4 || |tokens| == 5
    requires LessEq(CommandRange(tokens, tenantPrefix).end, SystemKeys) && Less(tokens[2], tokens[3])
    requires tokens[1] == PurgeWord || tokens[1] == ForcePurgeWord || tokens[1] == CheckWord
    ensures var o := BlobRange(tokens, tenantPrefix, serviceReply, latestReadVersion);
            var r := CommandRange(tokens, tenantPrefix);
            if |tokens| == 5 && !IntegerToken(tokens[4]) then o == Outcome(NoCall, false)
            else
              && o.ok
              && (tokens[1] != CheckWord ==> o.call.PurgeCall? && o.call.range == r
                                             && o.call.force == (tokens[1] == ForcePurgeWord))
              && (tokens[1] == CheckWord ==> o.call.VerifyCall? && o.call.range == r
                                             && (o.call.atVersion.Some? <==> |tokens| == 5))
              && (|tokens| == 4 && o.call.PurgeCall? ==> o.call.version == latestReadVersion)
              && (|tokens| == 5 ==> && Scan(tokens[4]).Some?
                                     && (o.call.PurgeCall? ==> o.call.version == Scan(tokens[4]).value)
                                     && (o.call.VerifyCall? ==> o.call.atVersion == Scan(tokens[4])))
  {
    LessEqNotAbove(CommandRange(tokens, tenantPrefix).end, SystemKeys);
    assert StartWord != PurgeWord && StartWord != ForcePurgeWord && StartWord != CheckWord;
    assert StopWord != PurgeWord && StopWord != ForcePurgeWord && StopWord != CheckWord;
    assert CheckWord != PurgeWord && CheckWord != ForcePurgeWord;
    if |tokens| == 5 {
      ScanAccepts(tokens[4]);
    }
  }

  /** Any other subcommand prints the usage and returns false. */
  lemma UnknownSubcommand(tokens: seq<Key>, tenantPrefix: Option<Key>, serviceReply: bool, latestReadVersion: int)
    requires |tokens| == 4 || |tokens| == 5
    requires LessEq(CommandRange(tokens, tenantPrefix).end, SystemKeys) && Less(tokens[2], tokens[3])
    requires tokens[1] !in {StartWord, StopWord, PurgeWord, ForcePurgeWord, CheckWord}
    ensures BlobRange(tokens, tenantPrefix, serviceReply, latestReadVersion) == Outcome(NoCall, false)
  {
    LessEqNotAbove(CommandRange(tokens, tenantPrefix).end, SystemKeys);
  }
}
