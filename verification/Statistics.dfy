/** The counters that `src/simp_server.cxx` and `src/simp_client.cxx` show and flush. */
module Statistics {

  datatype Stats = Stats(sends: nat, sentBytes: nat, recvs: nat, recvBytes: nat)

  const NO_STATS := Stats(0, 0, 0, 0)

  function Plus(a: Stats, b: Stats): (r: Stats)
    ensures r.sends == a.sends + b.sends && r.sentBytes == a.sentBytes + b.sentBytes
    ensures r.recvs == a.recvs + b.recvs && r.recvBytes == a.recvBytes + b.recvBytes
  {
    Stats(a.sends + b.sends, a.sentBytes + b.sentBytes, a.recvs + b.recvs, a.recvBytes + b.recvBytes)
  }
}
