/** The events handed to the event dispatcher (src/event_api/event.rs, with the
    conversion fields that src/event_api/request/payload.rs reads). */
module EventApi {

  datatype Event =
    | DecisionEvent(accountId: string, userId: string, campaignId: string, experimentId: string, variationId: string)
    | ConversionEvent(accountId: string, userId: string, eventId: string, eventKey: string)
}
