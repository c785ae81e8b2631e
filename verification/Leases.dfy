/** Leases, client requests and subnet configuration (master/lease.go,
    master/engine_interface.go, master/subnet.go, master/host.go). Times and
    durations are whole seconds. A Go nil slice is None. */
module Leases {
  import opened Wrappers
  import opened Pools

  type SubnetId = x: int | 0 <= x < 0x1_0000_0000

  type Mac = x: int | 0 <= x < 0x1_0000_0000_0000

  type ClientId = Bytes

  datatype LeaseState = Normal | Declined | ExpiredReclaimed

  datatype Lease = Lease(
    address: Address,
    state: LeaseState,
    validLifetime: int,
    clientId: Option<ClientId>,
    subnetId: SubnetId,
    lastTransaction: int,
    hostName: string,
    mac: Option<Mac>,
    renewTime: int,
    rebindTime: int)
  {
    function ExpiresAt(): int { lastTransaction + validLifetime }

    // strictly before the clock: a lease is still live in its last second
    predicate IsExpired(now: int) { ExpiresAt() < now }

    function Decline(now: int): Lease {
      this.(state := Declined, lastTransaction := now, clientId := None, mac := None)
    }

    /** The client identifier under which a client can find this lease. */
    predicate HasClientKey(c: ClientId) { c != [] && clientId == Some(c) }
  }

  datatype RequestType = Discover | Request | Release | Decline | ConflictIp

  datatype Context = Context(
    requestType: RequestType,
    subnetId: SubnetId,
    clientId: Option<ClientId>,
    mac: Option<Mac>,
    requestAddr: Option<Address>,
    hostName: string)
  {
    function ClientKey(): ClientId { if clientId.Some? then clientId.value else [] }

    /** The request presents the client-id or the MAC the lease is filed under. */
    predicate Presents(lease: Lease) {
      || lease.HasClientKey(ClientKey())
      || (mac.Some? && lease.mac == mac)
    }
  }

  datatype Subnet = Subnet(
    id: SubnetId,
    renewTime: int,
    rebindTime: int,
    validLifetime: int,
    pools: seq<Pool>,
    reservedPools: seq<Pool>)
}
