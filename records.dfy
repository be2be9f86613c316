/**
 * The concrete resource records the engine derives (one datatype per record
 * struct). They carry no behaviour of their own.
 */
module Records {
  import opened Common
  import opened Net

  /** An A or AAAA record, depending on the family of `ip`. */
  datatype ARecord = ARecord(name: string, ip: IpAddr, ttl: U32)
  datatype PtrRecord = PtrRecord(name: string, ip: IpAddr, ttl: U32)
  datatype NsRecord = NsRecord(name: string, ttl: U32)
  datatype MxRecord = MxRecord(name: string, ttl: U32, prio: U16)
  datatype CnameRecord = CnameRecord(name: string, target: string, ttl: U32)
  datatype SrvRecord = SrvRecord(name: string, target: string, ttl: U32, prio: U16, weight: U16, port: U16)
}
