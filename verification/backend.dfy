/** The channel record the backend serves (`frontend/src/backend.d.ts`):
    the id is a `bigint`. */
module Backend {
  datatype Channel = Channel(
    id: int,
    name: string,
    streamUrl: string,
    language: string,
    country: string,
    thumbnailUrl: string)
}
