/** The cache object itself: one method per critical section, each the matching step of the protocol. */
module QueryCacheObject {
  import opened Common
  import opened Results
  import Protocol = QueryCacheProtocol

  class QueryCache {
    var filtered: map<string, Entry>
    var inflight: map<string, nat>
    var channels: seq<Protocol.Channel>

    ghost function Shared(): Protocol.Cache
      reads this
    {
      Protocol.Cache(filtered, inflight, channels)
    }

    constructor ()
      ensures Shared() == Protocol.Init([]).cache
    {
      filtered, inflight, channels := map[], map[], [];
    }

    /** Under the read lock. */
    method FastPath(metric: string) returns (pc: Protocol.Pc)
      ensures pc == Protocol.FastPath(Shared(), metric)
    {
      if metric in filtered {
        return Protocol.Done(Protocol.Hit, filtered[metric]);
      }
      if metric in inflight {
        return Protocol.Waiting(inflight[metric]);
      }
      pc := Protocol.Missed;
    }

    /** Under the write lock: look again, then claim the fetch. */
    method Claim(metric: string, caller: nat) returns (pc: Protocol.Pc)
      modifies this
      ensures (Shared(), pc) == Protocol.Claim(old(Shared()), metric, caller)
    {
      if metric in filtered {
        return Protocol.Done(Protocol.Hit, filtered[metric]);
      }
      if metric in inflight {
        return Protocol.Waiting(inflight[metric]);
      }
      var ch := |channels|;
      channels := channels + [Protocol.Channel(metric, caller, 0, None)];
      inflight := inflight[metric := ch];
      pc := Protocol.Fetching(ch);
    }

    /** Under the write lock: store the entry unless it is an empty success, and retire the claim. */
    method Publish(metric: string, entry: Entry)
      modifies this
      ensures Shared() == Protocol.Publish(old(Shared()), metric, entry)
    {
      if |entry.results| > 0 || entry.err.Some? {
        filtered := filtered[metric := entry];
      }
      inflight := inflight - {metric};
    }

    method CloseChannel(ch: nat)
      requires ch < |channels|
      modifies this
      ensures Shared() == Protocol.CloseChannel(old(Shared()), ch)
    {
      channels := channels[ch := channels[ch].(closes := channels[ch].closes + 1)];
    }

    /** Under the read lock, after waking up. */
    method Reread(metric: string, ch: nat) returns (pc: Protocol.Pc)
      ensures pc == Protocol.Reread(Shared(), metric, ch)
    {
      if metric !in filtered {
        return Protocol.Done(Protocol.JoinedEmpty(ch), NOTHING);
      }
      pc := Protocol.Done(Protocol.Joined(ch), filtered[metric]);
    }

    /**
      A whole call with no other call in between. `fetch` is what fetching the metric would give.
      A stored entry is returned and a call for a metric in flight ends up waiting on its channel,
      and nothing changes. Otherwise the fetch is returned, stored exactly if it carries something,
      and its channel ends up closed once and out of `inflight`.
     */
    method Get(metric: string, caller: nat, fetch: Entry) returns (pc: Protocol.Pc)
      modifies this
      ensures metric in old(filtered) || metric in old(inflight) ==>
        && Shared() == old(Shared())
        && pc == if metric in old(filtered) then Protocol.Done(Protocol.Hit, old(filtered)[metric]) else Protocol.Waiting(old(inflight)[metric])
      ensures metric !in old(filtered) && metric !in old(inflight) ==>
        && pc == Protocol.Done(Protocol.Owner(|old(channels)|), fetch)
        && filtered == (if Cacheable(fetch) then old(filtered)[metric := fetch] else old(filtered))
        && inflight == old(inflight)
        && channels == old(channels) + [Protocol.Channel(metric, caller, 1, None)]
    {
      pc := FastPath(metric);
      if pc.Missed? {
        pc := Claim(metric, caller);
        if pc.Fetching? {
          var ch := pc.ch;
          Publish(metric, fetch);
          CloseChannel(ch);
          pc := Protocol.Done(Protocol.Owner(ch), fetch);
        }
      }
    }
  }
}
