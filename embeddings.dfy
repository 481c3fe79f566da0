/** The rows of the `face_embeddings` table: a person label and the embedding
    that was extracted for that person. The embedding type `V` is left abstract;
    the model never looks inside a vector. */
module Embeddings {

  datatype FaceEmbedding<V> = FaceEmbedding(person: string, embedding: V)

  /** The rows staged for one image: one per embedding found in it, all with the same label, in order. */
  function Tagged<V>(person: string, embeddings: seq<V>): (rows: seq<FaceEmbedding<V>>)
  {
    seq(|embeddings|, i requires 0 <= i < |embeddings| => FaceEmbedding(person, embeddings[i]))
  }
}
