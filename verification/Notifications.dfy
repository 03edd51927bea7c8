/** The fan-out of a notification to every channel. */
module Notifications {
  import opened Prelude
  import opened Accounts

  datatype Payload = Payload(email: string, token: Token)

  /** Channel number `service` was asked to deliver `payload`. */
  datatype Attempt = Attempt(service: nat, typ: OperationType, payload: Payload)

  function FanOut(services: nat, typ: OperationType, payload: Payload): seq<Attempt> {
    seq(services, i requires 0 <= i < services => Attempt(i, typ, payload))
  }

  class Broadcast {
    const services: nat
    var attempts: seq<Attempt>

    constructor (services: nat)
      ensures this.services == services && attempts == []
    {
      this.services := services;
      attempts := [];
    }

    /** A channel may throw whatever it likes. */
    method Deliver(service: nat, typ: OperationType, payload: Payload) returns (r: Result<(), Error>)
      modifies this`attempts
      ensures attempts == old(attempts) + [Attempt(service, typ, payload)]
    {
      attempts := attempts + [Attempt(service, typ, payload)];
      var throws: bool := *;
      var error: Error := *;
      r := if throws then Err(error) else Ok(());
    }

    /** Every channel is asked once, in order, whichever of them throw. The method itself
        has no error to return. */
    method Notify(typ: OperationType, payload: Payload)
      modifies this`attempts
      ensures attempts == old(attempts) + FanOut(services, typ, payload)
    {
      var service := 0;
      while service < services
        invariant service <= services
        invariant attempts == old(attempts) + FanOut(service, typ, payload)
      {
        var delivered := Deliver(service, typ, payload);
        service := service + 1;
        assert FanOut(service, typ, payload) ==
               FanOut(service - 1, typ, payload) + [Attempt(service - 1, typ, payload)];
        if delivered.Err? {
          continue;
        }
      }
    }
  }
}
